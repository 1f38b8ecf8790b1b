// internal/broadcast/huffman.go: what becomes of the round trip when one code begins another. Loading
// does not rule that out, and the decoder's tree then emits the first value whose code it has read.
module HuffmanClash {
  import opened Words
  import opened Huffman

  // ---- The tree of any table --------------------------------------------------------------------------------

  /** The value left at the end of a path: the last one inserted there. */
  function LastWith(table: Table, path: Bits): Option<Text> {
    if table == [] then None
    else
      var last := table[|table| - 1];
      if last.1 == path then Some(last.0) else LastWith(table[..|table| - 1], path)
  }

  lemma {:induction false} TreeOf(table: Table, path: Bits)
    ensures At(Tree(table), path).Some? <==> path == [] || exists i :: 0 <= i < |table| && path <= table[i].1
    ensures Leaf(Tree(table), path) == LastWith(table, path)
  {
    if table == [] {
      EmptyHasNoPaths(path);
    } else {
      var n := |table| - 1;
      TreeOf(table[..n], path);
      GrowAdds(Tree(table[..n]), table[n].1, table[n].0, path);
      assert forall i :: 0 <= i < n ==> table[..n][i] == table[i];
    }
  }

  lemma {:induction false} LastWithIs(table: Table, path: Bits)
    ensures match LastWith(table, path)
            case Some(v) => exists i :: 0 <= i < |table| && table[i] == (v, path)
            case None => forall i :: 0 <= i < |table| ==> table[i].1 != path
  {
    if table == [] {
    } else {
      var n := |table| - 1;
      LastWithIs(table[..n], path);
      if table[n].1 == path {
        assert table[n] == (table[n].0, path);
      } else if LastWith(table, path).Some? {
        var i :| 0 <= i < n && table[..n][i] == (LastWith(table, path).value, path);
        assert table[i] == (LastWith(table, path).value, path);
      } else {
        assert forall i :: 0 <= i < n ==> table[..n][i] == table[i];
      }
    }
  }

  /** n is how far the decoder reads from the root before it comes to a value, v. */
  ghost predicate Meets(table: Table, bits: Bits, n: nat, v: Text) {
    && 0 < n <= |bits| && LastWith(table, bits[..n]) == Some(v)
    && forall m :: 0 < m < n ==> LastWith(table, bits[..m]) == None
  }

  lemma {:induction false} ReadsToLeaf(table: Table, bits: Bits, k: nat, n: nat, v: Text, out: Text)
    requires Meets(table, bits, n, v) && k < n
    ensures var t := Tree(table);
            && At(t, bits[..k]).Some?
            && Read(t, At(t, bits[..k]).value, bits[k..], out) ==
               if v == [] then (out, true) else Read(t, t, bits[n..], out + v)
    decreases n - k
  {
    hide Tree, LastWith;
    var t := Tree(table);
    LastWithIs(table, bits[..n]);
    TreeOf(table, bits[..k]);
    TreeOf(table, bits[..k + 1]);
    assert bits[..k] <= bits[..n] && bits[..k + 1] <= bits[..n];
    AtSplits(t, bits[..k], [bits[k]]);
    assert bits[..k] + [bits[k]] == bits[..k + 1];
    var cur := At(t, bits[..k]).value;
    OneStep(cur, bits[k]);
    assert bits[k..][0] == bits[k] && bits[k..][1..] == bits[k + 1..];
    if k + 1 < n { ReadsToLeaf(table, bits, k + 1, n, v, out); }
  }

  lemma OneStep(cur: Node, bit: bool)
    ensures At(cur, [bit]) == if bit in cur.children then Some(cur.children[bit]) else None
  {
    if bit in cur.children { assert At(cur.children[bit], [bit][1..]) == Some(cur.children[bit]); }
  }

  /** The reader's first value decides what its text begins with. */
  lemma {:induction false} MeetsDecides(table: Table, bits: Bits, n: nat, v: Text)
    requires Meets(table, bits, n, v)
    ensures var r := Read(Tree(table), Tree(table), bits, []);
            if v == [] then r == ([], true) else v <= r.0
  {
    ReadsToLeaf(table, bits, 0, n, v, []);
    assert bits[..0] == [] && bits[0..] == bits;
    var none: Text := [];
    assert none + v == v;
    if v != [] { ReadExtends(Tree(table), Tree(table), bits[n..], v); }
  }

  // ---- Whole dictionaries -------------------------------------------------------------------------------------

  /** What loading leaves: no value and no code is empty, and there is a terminator. */
  ghost predicate Loaded(codes: Codes, terminator: Bits) {
    terminator != [] && [] !in codes && forall v :: v in codes ==> codes[v] != []
  }

  lemma LoadingLeavesLoaded(lines: seq<Text>, codes: Codes, terminator: Bits)
    requires KeptShortest(lines, codes, terminator) && Mentioned(lines, [])
    ensures Loaded(codes, terminator)
  {
    GivenHasBits(lines, [], terminator);
    forall v | v in codes ensures codes[v] != [] { GivenHasBits(lines, v, codes[v]); }
  }

  lemma GivenHasBits(lines: seq<Text>, v: Text, code: Bits)
    requires Shortest(lines, v, code)
    ensures code != []
  {
    var k :| Gives(lines, k, v, code);
    EntryHasBits(lines[k]);
    hide Entry;
  }

  function TableIn(codes: Codes, terminator: Bits, order: seq<Text>): Table
    requires forall k :: 0 <= k < |order| ==> order[k] in codes
  {
    Rows(codes, order) + [([], terminator)]
  }

  /** Encoding a text and decoding it gives the text, and the terminator is met. */
  ghost predicate ComesBack(codes: Codes, terminator: Bits, order: seq<Text>, text: Text)
    requires Loaded(codes, terminator) && Walks(order, codes) && Tokens(codes, text).Some?
  {
    Decoded(TableIn(codes, terminator, order), Encoded(codes, terminator, text).value) == (text, true)
  }

  /** The rows of the decoder's table are the codes and, last, the terminator. */
  lemma LastIn(codes: Codes, terminator: Bits, order: seq<Text>, path: Bits)
    requires Loaded(codes, terminator) && Walks(order, codes)
    ensures var last := LastWith(TableIn(codes, terminator, order), path);
            && (path == terminator ==> last == Some([]))
            && (path != terminator && last.Some? ==> last.value in codes && codes[last.value] == path)
            && (path != terminator && last.None? ==> forall v :: v in codes ==> codes[v] != path)
  {
    var rows, table := Rows(codes, order), TableIn(codes, terminator, order);
    assert table[..|table| - 1] == rows;
    if path != terminator {
      LastWithIs(rows, path);
      if LastWith(rows, path).None? {
        forall v | v in codes ensures codes[v] != path {
          var k :| 0 <= k < |order| && order[k] == v;
          assert rows[k] == (v, codes[v]);
        }
      }
    }
  }

  /** A value is coded as itself. */
  lemma CodesItself(codes: Codes, w: Text)
    requires [] !in codes && (w in codes || w == [])
    ensures Tokens(codes, w).Some? && Coded(codes, Tokens(codes, w).value) == if w == [] then [] else codes[w]
  {
    if w != [] {
      assert w[..|w|] == w && w[|w|..] == [];
      assert Longest(codes, w) == |w|;
      assert Tokens(codes, []) == Some([]);
      assert Tokens(codes, w) == Some([w] + []);
      assert [w] + [] == [w] && [w][1..] == [];
      assert codes[w] + [] == codes[w];
    }
  }

  /** What the decoder meets first in the bits of a value, or of the empty text. */
  lemma {:induction false} FirstMet(codes: Codes, terminator: Bits, order: seq<Text>, w: Text, n: nat, v: Text)
    requires Loaded(codes, terminator) && Walks(order, codes) && (w in codes || w == [])
    requires Meets(TableIn(codes, terminator, order), if w == [] then terminator else codes[w], n, v)
    ensures Tokens(codes, w).Some?
    ensures if v == [] then ComesBack(codes, terminator, order, w) <==> w == []
            else ComesBack(codes, terminator, order, w) ==> v <= w
  {
    hide Tokens, Coded, Pack, Unpack, Filler, LastWith, Read, Tree, Rows, Padded;
    CodesItself(codes, w);
    var need := EncodedIs(codes, terminator, w);
    var table := TableIn(codes, terminator, order);
    var head := if w == [] then terminator else codes[w];
    var bits := (if w == [] then [] else codes[w]) + (terminator + Filler(terminator, need));
    assert head <= bits;
    forall m: nat | m <= |head| ensures bits[..m] == head[..m] {}
    assert Meets(table, bits, n, v);
    MeetsDecides(table, bits, n, v);
  }

  /** A value whose code some other value's code begins is lost, unless the value the decoder comes to
      first begins it: u has the shortest code that begins w's, and no value with that code begins w. */
  lemma {:induction false} ClashLosesValue(codes: Codes, terminator: Bits, order: seq<Text>, u: Text, w: Text)
    requires Loaded(codes, terminator) && Walks(order, codes) && u in codes && w in codes && codes[u] <= codes[w]
    requires forall v :: v in codes && codes[v] <= codes[w] ==> |codes[u]| <= |codes[v]|
    requires terminator <= codes[w] ==> |codes[u]| <= |terminator|
    requires forall v :: v in codes && codes[v] == codes[u] ==> !(v <= w)
    ensures Tokens(codes, w).Some? && !ComesBack(codes, terminator, order, w)
  {
    var n := |codes[u]|;
    var table := TableIn(codes, terminator, order);
    assert codes[w][..n] == codes[u];
    LastIn(codes, terminator, order, codes[u]);
    forall m | 0 < m < n ensures LastWith(table, codes[w][..m]) == None {
      LastIn(codes, terminator, order, codes[w][..m]);
      assert codes[w][..m] <= codes[w];
    }
    hide LastWith;
    var v := LastWith(table, codes[u]).value;
    FirstMet(codes, terminator, order, w, n, v);
    hide ComesBack;
  }

  /** A value whose code the terminator begins, with nothing shorter before it, is lost. */
  lemma {:induction false} TerminatorLosesValue(codes: Codes, terminator: Bits, order: seq<Text>, w: Text)
    requires Loaded(codes, terminator) && Walks(order, codes) && w in codes && terminator <= codes[w]
    requires forall v :: v in codes && codes[v] <= codes[w] ==> |terminator| <= |codes[v]|
    ensures Tokens(codes, w).Some? && !ComesBack(codes, terminator, order, w)
  {
    var n := |terminator|;
    var table := TableIn(codes, terminator, order);
    assert codes[w][..n] == terminator;
    LastIn(codes, terminator, order, terminator);
    forall m | 0 < m < n ensures LastWith(table, codes[w][..m]) == None {
      LastIn(codes, terminator, order, codes[w][..m]);
      assert codes[w][..m] <= codes[w];
    }
    hide LastWith;
    FirstMet(codes, terminator, order, w, n, []);
    hide ComesBack;
  }

  /** The empty text comes back exactly when no code begins the terminator and stops short of it. */
  lemma {:induction false} EmptyTextIff(codes: Codes, terminator: Bits, order: seq<Text>)
    requires Loaded(codes, terminator) && Walks(order, codes)
    ensures Tokens(codes, []).Some?
    ensures ComesBack(codes, terminator, order, []) <==> forall v :: v in codes ==> !(codes[v] < terminator)
  {
    var table := TableIn(codes, terminator, order);
    LastIn(codes, terminator, order, terminator);
    assert terminator[..|terminator|] == terminator;
    var n := ShortestAt(table, terminator, 1, |terminator|);
    LastIn(codes, terminator, order, terminator[..n]);
    var v := LastWith(table, terminator[..n]).value;
    FirstMet(codes, terminator, order, [], n, v);
    hide ComesBack;
    if u :| u in codes && codes[u] < terminator {
      var m := |codes[u]|;
      assert terminator[..m] == codes[u];
      LastIn(codes, terminator, order, codes[u]);
    }
  }

  /** The first length from `from` on at which some row ends, if one of them does at `upto`. */
  lemma {:induction false} ShortestAt(table: Table, bits: Bits, from: nat, upto: nat) returns (n: nat)
    requires from <= upto <= |bits| && LastWith(table, bits[..upto]).Some?
    ensures from <= n <= upto && LastWith(table, bits[..n]).Some?
    ensures forall m :: from <= m < n ==> LastWith(table, bits[..m]) == None
    decreases upto - from
  {
    if LastWith(table, bits[..from]).Some? { n := from; } else { n := ShortestAt(table, bits, from + 1, upto); }
  }

  /** What a value's own code leads the decoder to first. */
  lemma {:induction false} ValueMeets(codes: Codes, terminator: Bits, order: seq<Text>, w: Text) returns (n: nat, v: Text)
    requires Loaded(codes, terminator) && Walks(order, codes) && w in codes
    ensures Meets(TableIn(codes, terminator, order), codes[w], n, v)
    ensures Tokens(codes, w).Some? && (ComesBack(codes, terminator, order, w) ==> v != [] && v <= w)
    ensures v != [] ==> v in codes && codes[v] == codes[w][..n]
    ensures terminator <= codes[w] ==> n <= |terminator|
    ensures forall u :: u in codes && codes[u] <= codes[w] ==> n <= |codes[u]|
  {
    var table, code := TableIn(codes, terminator, order), codes[w];
    LastIn(codes, terminator, order, code);
    assert code[..|code|] == code;
    n := ShortestAt(table, code, 1, |code|);
    LastIn(codes, terminator, order, code[..n]);
    v := LastWith(table, code[..n]).value;
    FirstMet(codes, terminator, order, w, n, v);
    hide ComesBack;
    if terminator <= code {
      LastIn(codes, terminator, order, terminator);
      assert code[..|terminator|] == terminator;
    }
    forall u | u in codes && codes[u] <= code ensures n <= |codes[u]| {
      LastIn(codes, terminator, order, codes[u]);
      assert code[..|codes[u]|] == codes[u];
    }
  }

  /** No value begins another. */
  ghost predicate NoneBegins(codes: Codes) {
    forall v, w :: v in codes && w in codes && v != w ==> !(v <= w)
  }

  ghost predicate AllComeBack(codes: Codes, terminator: Bits, order: seq<Text>)
    requires Loaded(codes, terminator) && Walks(order, codes)
  {
    forall text :: Tokens(codes, text).Some? ==> ComesBack(codes, terminator, order, text)
  }

  /** Where no value begins another, every text comes back exactly when no code begins another. */
  lemma {:induction false} AllComeBackIff(codes: Codes, terminator: Bits, order: seq<Text>)
    requires Loaded(codes, terminator) && Walks(order, codes) && NoneBegins(codes)
    ensures AllComeBack(codes, terminator, order) <==> PrefixFreeCodes(codes, terminator)
  {
    if PrefixFreeCodes(codes, terminator) {
      forall text | Tokens(codes, text).Some? ensures ComesBack(codes, terminator, order, text) {
        DictionaryRoundTrip(codes, terminator, order, text);
        hide Tokens, Decoded, Shown, Rows, PrefixFreeCodes;
      }
    }
    if AllComeBack(codes, terminator, order) { ComingBackIsPrefixFree(codes, terminator, order); }
  }

  lemma {:induction false} ComingBackIsPrefixFree(codes: Codes, terminator: Bits, order: seq<Text>)
    requires Loaded(codes, terminator) && Walks(order, codes) && NoneBegins(codes) && AllComeBack(codes, terminator, order)
    ensures PrefixFreeCodes(codes, terminator)
  {
    hide ComesBack, Tokens, Rows;
    EmptyTextIff(codes, terminator, order);
    forall w | w in codes
      ensures !(codes[w] <= terminator) && !(terminator <= codes[w])
      ensures forall v :: v in codes && v != w ==> !(codes[v] <= codes[w])
    {
      OwnCodeFirst(codes, terminator, order, w);
    }
  }

  /** If the value comes back, nothing else is met on the way to its leaf, nor at it. */
  lemma {:induction false} OwnCodeFirst(codes: Codes, terminator: Bits, order: seq<Text>, w: Text)
    requires Loaded(codes, terminator) && Walks(order, codes) && NoneBegins(codes) && AllComeBack(codes, terminator, order)
    requires w in codes
    ensures !(terminator <= codes[w]) && codes[w] != terminator
    ensures forall v :: v in codes && v != w ==> !(codes[v] <= codes[w])
  {
    hide Tokens, ComesBack, LastWith, Coded;
    var n, v := ValueMeets(codes, terminator, order, w);
    assert ComesBack(codes, terminator, order, w);
    LastIn(codes, terminator, order, codes[w]);
    assert v == w && codes[w][..n] == codes[w];
    PrefixOfSameLength(terminator, codes[w]);
    forall u | u in codes ensures codes[u] <= codes[w] ==> u == w {
      CodesItself(codes, u);
      PrefixOfSameLength(codes[u], codes[w]);
      SameCodeOnce(codes, terminator, order, u, w);
    }
  }

  /** Two values with one code cannot both come back. */
  lemma {:induction false} SameCodeOnce(codes: Codes, terminator: Bits, order: seq<Text>, u: Text, w: Text)
    requires Loaded(codes, terminator) && Walks(order, codes) && NoneBegins(codes) && u in codes && w in codes
    requires Tokens(codes, u).Some? && Tokens(codes, w).Some?
    requires ComesBack(codes, terminator, order, u) && ComesBack(codes, terminator, order, w)
    ensures codes[u] == codes[w] ==> u == w
  {
    hide ComesBack, Tokens;
    var n, v := ValueMeets(codes, terminator, order, w);
    var m, x := ValueMeets(codes, terminator, order, u);
    if codes[u] == codes[w] { SameMeeting(TableIn(codes, terminator, order), codes[w], n, v, m, x); }
  }

  lemma PrefixOfSameLength(a: Bits, b: Bits)
    ensures a <= b && |b| <= |a| ==> a == b
  {
  }

  lemma SameMeeting(table: Table, bits: Bits, n: nat, v: Text, m: nat, x: Text)
    requires Meets(table, bits, n, v) && Meets(table, bits, m, x)
    ensures n == m && v == x
  {
    hide LastWith;
  }

  // ---- Two dictionaries that loading accepts --------------------------------------------------------------------

  const A: Text := [97]
  const B: Text := [98]

  /** The lines "a=0", "b=01" and "=11". */
  const CLASHING_LINES: seq<Text> := [[97, 61, 48], [98, 61, 48, 49], [61, 49, 49]]

  lemma ClashingEntries()
    ensures Entry(CLASHING_LINES[0]) == Some((A, [false])) && Entry(CLASHING_LINES[1]) == Some((B, [false, true]))
    ensures Entry(CLASHING_LINES[2]) == Some(([], [true, true]))
  {
    var a, b := CLASHING_LINES[0], CLASHING_LINES[1];
    assert a[..1] == A && a[2..] == [48] && b[..1] == B && b[2..] == [48, 49];
    assert SplitLine([97, 61, 48]) == Some((A, [48])) && SplitLine([98, 61, 48, 49]) == Some((B, [48, 49]));
    assert FirstEquals([61, 49, 49]) == 0;
    var end: Text := [61, 49, 49];
    assert end[..0] == [] && end[1..] == [49, 49];
    assert ToBits([48]) == [false] && ToBits([48, 49]) == [false, true] && ToBits([49, 49]) == [true, true];
  }

  /** Those lines load, and to exactly this dictionary. */
  lemma ClashLoads(codes: Codes, terminator: Bits)
    requires KeptShortest(CLASHING_LINES, codes, terminator)
    ensures codes == map[A := [false], B := [false, true]] && terminator == [true, true]
    ensures Mentioned(CLASHING_LINES, [])
  {
    ClashingEntries();
    hide Entry;
    assert Gives(CLASHING_LINES, 0, A, [false]) && Gives(CLASHING_LINES, 1, B, [false, true]);
    assert Gives(CLASHING_LINES, 2, [], [true, true]);
    forall v | v in codes ensures v == A || v == B {
      var k :| Gives(CLASHING_LINES, k, v, codes[v]);
    }
  }

  /** Whatever loads those lines and decodes in whatever order, "b" does not come back. */
  lemma LoadedClashLosesText(codes: Codes, terminator: Bits, order: seq<Text>)
    requires KeptShortest(CLASHING_LINES, codes, terminator) && Walks(order, codes)
    ensures Loaded(codes, terminator) && Tokens(codes, B).Some? && !ComesBack(codes, terminator, order, B)
  {
    ClashLoads(codes, terminator);
    LoadingLeavesLoaded(CLASHING_LINES, codes, terminator);
    hide KeptShortest, Loaded, ComesBack;
    ClashLosesValue(codes, terminator, order, A, B);
  }

  /** With a = 0, b = 01 and terminator 11, inserted in that order, "b" comes back as something else. */
  lemma PrefixClash(table: Table)
    requires table == [(A, [false]), (B, [false, true]), ([], [true, true])]
    ensures var codes: Codes := map[A := [false], B := [false, true]];
            && TableOf(table, codes, [true, true])
            && Tokens(codes, B).Some?
            && Decoded(table, Encoded(codes, [true, true], B).value) != (B, true)
  {
    var codes: Codes := map[A := [false], B := [false, true]];
    assert table[0] == (A, codes[A]) && table[1] == (B, codes[B]);
    hide Tokens, Decoded, Encoded;
    ClashLosesValue(codes, [true, true], [A, B], A, B);
    assert Rows(codes, [A, B]) + [([], [true, true])] == table;
  }

  const AA: Text := [97, 97]

  function As(n: nat): (r: Text)
    ensures |r| == n
  {
    seq(n, i => 97)
  }

  lemma {:induction false} ReadsAs(codes: Codes, order: seq<Text>, n: nat, rest: Bits, out: Text)
    requires codes == map[A := [false], AA := [false, false]] && Walks(order, codes)
    ensures var t := Tree(TableIn(codes, [true], order)); Read(t, t, Zeros(n) + ([true] + rest), out) == (out + As(n), true)
    decreases n
  {
    hide Tree, Read, LastWith, Rows;
    var table, bits := TableIn(codes, [true], order), Zeros(n) + ([true] + rest);
    assert bits[..0] == [] && bits[0..] == bits;
    LastIn(codes, [true], order, bits[..1]);
    if n == 0 {
      assert bits[..1] == [true] && out + As(0) == out;
      ReadsToLeaf(table, bits, 0, 1, [], out);
    } else {
      assert bits[..1] == [false] == codes[A] && |codes[AA]| == 2 && bits[1..] == Zeros(n - 1) + ([true] + rest);
      assert [false][0] != [true][0];
      ReadsToLeaf(table, bits, 0, 1, A, out);
      ReadsAs(codes, order, n - 1, rest, out + A);
      assert out + A + As(n - 1) == out + As(n);
    }
  }

  lemma {:induction false} CodedAs(codes: Codes, tokens: seq<Text>)
    requires codes == map[A := [false], AA := [false, false]] && forall k :: 0 <= k < |tokens| ==> tokens[k] in codes
    ensures Joined(tokens) == As(|Joined(tokens)|) && Coded(codes, tokens) == Zeros(|Joined(tokens)|)
  {
    if tokens == [] {
    } else {
      CodedAs(codes, tokens[1..]);
    }
  }

  /** Where values do begin one another, a code may begin another and no text be lost: a = 0, aa = 00,
      terminator 1. */
  lemma ClashWithoutLoss(codes: Codes, order: seq<Text>)
    requires codes == map[A := [false], AA := [false, false]] && Walks(order, codes)
    ensures Loaded(codes, [true]) && !PrefixFreeCodes(codes, [true]) && AllComeBack(codes, [true], order)
  {
    assert A in codes && AA in codes && codes[A] <= codes[AA];
    forall text | Tokens(codes, text).Some? ensures ComesBack(codes, [true], order, text) {
      hide Tokens, Coded, Rows, Read, Tree, Pack, Unpack, Filler, Padded, PrefixFreeCodes;
      var tokens := Tokens(codes, text).value;
      var need := EncodedIs(codes, [true], text);
      CodedAs(codes, tokens);
      ReadsAs(codes, order, |text|, Filler([true], need), []);
      assert [] + As(|text|) == text;
    }
  }
}
