// internal/broadcast/sections.go: packSections, which spreads a table's items over numbered
// sections in order, each as full as it will go.
module Packing {
  import opened Words

  type Bytes = seq<Byte>

  const MAX_SECTION_LENGTH := 1021
  const PAYLOAD_BUDGET := MAX_SECTION_LENGTH - 5 - 4
  const MAX_SECTIONS := 256

  datatype SectionError =
    | NotAscii | NameTooLong | NoTransports | NoService | ChannelTooBig | FlagsTooBig | DescriptorTooLong
    | ItemTooBig(index: nat) | TooManySections | VersionTooBig | BadNumber | TooLong | NotDispatched

  function Joined(items: seq<Bytes>): Bytes {
    if items == [] then [] else Joined(items[..|items| - 1]) + items[|items| - 1]
  }

  function Flat(groups: seq<seq<Bytes>>): seq<Bytes> {
    if groups == [] then [] else Flat(groups[..|groups| - 1]) + groups[|groups| - 1]
  }

  /** A group goes in one section beside the head. */
  predicate Fits(group: seq<Bytes>, head: nat) {
    head + |Joined(group)| <= PAYLOAD_BUDGET
  }

  /** A way of spreading the items over sections: in order, none lost, every section within its
      limit. */
  ghost predicate Spreads(groups: seq<seq<Bytes>>, items: seq<Bytes>, head: nat) {
    groups != [] && Flat(groups) == items && forall k :: 0 <= k < |groups| ==> Fits(groups[k], head)
  }

  /** The groups closed so far and the one being filled. */
  datatype Filling = Filling(closed: seq<seq<Bytes>>, current: seq<Bytes>)
  {
    function All(): seq<seq<Bytes>> {
      closed + [current]
    }
  }

  /** The next item goes in the section being filled if it fits, and opens a new one if not. */
  function Added(f: Filling, item: Bytes, head: nat): Filling {
    if f.current != [] && head + |Joined(f.current)| + |item| > PAYLOAD_BUDGET then
      Filling(f.closed + [f.current], [item])
    else f.(current := f.current + [item])
  }

  function Packed(items: seq<Bytes>, head: nat): Filling {
    if items == [] then Filling([], [])
    else Added(Packed(items[..|items| - 1], head), items[|items| - 1], head)
  }

  lemma JoinOne(group: seq<Bytes>, item: Bytes)
    ensures Joined(group + [item]) == Joined(group) + item
  {
    assert (group + [item])[..|group|] == group;
  }

  lemma FlatOne(groups: seq<seq<Bytes>>, group: seq<Bytes>)
    ensures Flat(groups + [group]) == Flat(groups) + group
  {
    assert (groups + [group])[..|groups|] == groups;
  }

  /** Every item fits a section by itself. */
  ghost predicate EachFits(items: seq<Bytes>, head: nat) {
    forall k :: 0 <= k < |items| ==> head + |items[k]| <= PAYLOAD_BUDGET
  }

  lemma AddingKeeps(f: Filling, items: seq<Bytes>, item: Bytes, head: nat)
    requires Spreads(f.All(), items, head) && head + |item| <= PAYLOAD_BUDGET
    ensures Spreads(Added(f, item, head).All(), items + [item], head)
  {
    var g := Added(f, item, head);
    FlatOne(f.closed, f.current);
    FlatOne(g.closed, g.current);
    JoinOne(f.current, item);
    JoinOne([], item);
    assert f.All()[|f.closed|] == f.current;
    assert [] + [item] == [item];
    hide Joined, Flat;
    assert forall k :: 0 <= k < |f.closed| ==> f.All()[k] == f.closed[k];
    if g.closed == f.closed {
      assert Flat(f.closed) + (f.current + [item]) == items + [item];
    } else {
      FlatOne(f.closed, f.current);
    }
  }

  /** Packing loses nothing, keeps the order and overfills nothing, as long as every item fits a
      section by itself. */
  lemma {:induction false} PackingSpreads(items: seq<Bytes>, head: nat)
    requires head <= PAYLOAD_BUDGET && EachFits(items, head)
    ensures Spreads(Packed(items, head).All(), items, head)
  {
    if items == [] {
      FlatOne([], []);
    } else {
      var n := |items| - 1;
      PackingSpreads(items[..n], head);
      AddingKeeps(Packed(items[..n], head), items[..n], items[n], head);
      assert items[..n] + [items[n]] == items;
      hide Added, Spreads;
    }
  }

  /** Only a table with nothing in it has a section with nothing in it. */
  lemma {:induction false} NoEmptySections(items: seq<Bytes>, head: nat)
    requires items != []
    ensures forall k :: 0 <= k < |Packed(items, head).All()| ==> Packed(items, head).All()[k] != []
  {
    NoneEmpty(items, head);
    var f := Packed(items, head);
    hide Packed;
    assert f.All()[..|f.closed|] == f.closed && f.All()[|f.closed|] == f.current;
    forall k | 0 <= k < |f.closed| ensures f.All()[k] == f.closed[k] {}
  }

  lemma {:induction false} NoneEmpty(items: seq<Bytes>, head: nat)
    requires items != []
    ensures var f := Packed(items, head); f.current != [] && forall k :: 0 <= k < |f.closed| ==> f.closed[k] != []
  {
    var n := |items| - 1;
    if n == 0 {
      assert items[..n] == [];
    } else {
      NoneEmpty(items[..n], head);
    }
  }

  /** No way of spreading the items uses fewer sections; and one that uses as many has at least as
      full a last section. */
  lemma {:induction false} PackingIsTightest(items: seq<Bytes>, head: nat, groups: seq<seq<Bytes>>)
    requires Spreads(groups, items, head)
    ensures var f := Packed(items, head);
            && |groups| >= |f.All()|
            && (|groups| == |f.All()| ==> |Joined(groups[|groups| - 1])| >= |Joined(f.current)|)
    decreases |items|, |groups|
  {
    var m := |groups| - 1;
    var last := groups[m];
    FlatOne(groups[..m], last);
    assert groups[..m] + [last] == groups;
    if items == [] {
    } else if last == [] {
      assert Flat(groups[..m]) == items;
      PackingIsTightest(items, head, groups[..m]);
    } else {
      var n, q := |items| - 1, |last| - 1;
      var rest := groups[..m] + [last[..q]];
      assert last[..q] + [last[q]] == last;
      JoinOne(last[..q], last[q]);
      FlatOne(groups[..m], last[..q]);
      assert Flat(groups[..m]) + last[..q] == items[..n] && last[q] == items[n];
      PackingIsTightest(items[..n], head, rest);
      var f := Packed(items[..n], head);
      JoinOne(f.current, items[n]);
      JoinOne([], items[n]);
      assert [] + [items[n]] == [items[n]];
      hide Joined, Flat;
    }
  }

  /** Whether and where packSections refuses an item. */
  function FirstTooBig(items: seq<Result<Bytes, SectionError>>, head: nat): Option<SectionError> {
    if items == [] then None
    else
      var n := |items| - 1;
      var early := FirstTooBig(items[..n], head);
      if early.Some? then early
      else if items[n].Err? then Some(items[n].error)
      else if head + |items[n].value| > PAYLOAD_BUDGET then Some(ItemTooBig(n))
      else None
  }

  function Values(items: seq<Result<Bytes, SectionError>>): (r: seq<Bytes>)
    requires forall k :: 0 <= k < |items| ==> items[k].Ok?
    ensures |r| == |items|
  {
    seq(|items|, k requires 0 <= k < |items| => items[k].value)
  }

  lemma {:induction false} NoErrorMeans(items: seq<Result<Bytes, SectionError>>, head: nat)
    requires FirstTooBig(items, head).None?
    ensures forall k :: 0 <= k < |items| ==> items[k].Ok? && head + |items[k].value| <= PAYLOAD_BUDGET
  {
    if items == [] {
    } else {
      NoErrorMeans(items[..|items| - 1], head);
    }
  }

  lemma {:induction false} FirstStands(items: seq<Result<Bytes, SectionError>>, head: nat, i: nat)
    requires i <= |items| && FirstTooBig(items[..i], head).Some?
    ensures FirstTooBig(items, head) == FirstTooBig(items[..i], head)
    decreases |items|
  {
    var n := |items| - 1;
    if i == |items| {
      assert items[..i] == items;
    } else {
      assert items[..n][..i] == items[..i];
      FirstStands(items[..n], head, i);
    }
  }

  /** packSections' answer. */
  function Sectioned(items: seq<Result<Bytes, SectionError>>, head: nat): Result<seq<seq<Bytes>>, SectionError> {
    if FirstTooBig(items, head).Some? then Err(FirstTooBig(items, head).value)
    else
      NoErrorMeans(items, head);
      var groups := Packed(Values(items), head).All();
      if |groups| > MAX_SECTIONS then Err(TooManySections) else Ok(groups)
  }

  // One turn of packSections' loop.
  method AddItem(groups: seq<seq<Bytes>>, current: seq<Bytes>, size: nat, head: nat, body: Bytes)
      returns (groups': seq<seq<Bytes>>, current': seq<Bytes>, size': nat)
    requires size == head + |Joined(current)|
    ensures Filling(groups', current') == Added(Filling(groups, current), body, head)
    ensures size' == head + |Joined(current')|
  {
    hide Joined;
    JoinedNothing();
    assert [] + [body] == [body];
    groups', current', size' := groups, current, size;
    if |current| > 0 && size + |body| > PAYLOAD_BUDGET {
      groups' := groups + [current];
      current', size' := [], head;
    }
    JoinOne(current', body);
    current' := current' + [body];
    size' := size' + |body|;
  }

  method PackSections(items: seq<Result<Bytes, SectionError>>, head: nat) returns (r: Result<seq<seq<Bytes>>, SectionError>)
    ensures r == Sectioned(items, head)
  {
    hide Added, Joined;
    var groups: seq<seq<Bytes>>, current: seq<Bytes>, size := [], [], head;
    assert Joined(current) == [] by { JoinedNothing(); }
    for i := 0 to |items|
      invariant FirstTooBig(items[..i], head).None?
      invariant forall k :: 0 <= k < i ==> items[k].Ok?
      invariant Packed(Values(items[..i]), head) == Filling(groups, current) && size == head + |Joined(current)|
    {
      assert items[..i + 1][..i] == items[..i];
      if items[i].Err? || head + |items[i].value| > PAYLOAD_BUDGET {
        FirstStands(items, head, i + 1);
        return Err(if items[i].Err? then items[i].error else ItemTooBig(i));
      }
      assert Values(items[..i + 1])[..i] == Values(items[..i]);
      groups, current, size := AddItem(groups, current, size, head, items[i].value);
    }
    assert items[..|items|] == items;
    groups := groups + [current];
    if |groups| > MAX_SECTIONS { return Err(TooManySections); }
    r := Ok(groups);
  }

  lemma JoinedNothing()
    ensures Joined([]) == []
  {
  }
}
