// internal/broadcast/huffman.go: the Huffman coder of the Sky guide. Text is a sequence of bytes,
// a code a sequence of bits. The encoder is checked against the decoder it feeds, and against the
// box's own reader, which does not stop at the terminator.
module Huffman {
  import opened Words

  type Text = seq<Byte>

  /** The first byte carries six bits and every later byte eight. */
  const FIRST_BYTE_BITS := 6

  // ---- Loading the dictionary ---------------------------------------------------------------------

  const EQUALS: Byte := 61
  const RETURN: Byte := 13

  /** Where the first '=' is, or the length. */
  function FirstEquals(line: Text): (i: nat)
    ensures i <= |line| && (i < |line| ==> line[i] == EQUALS) && EQUALS !in line[..i]
  {
    if line == [] || line[0] == EQUALS then 0
    else
      assert line[..FirstEquals(line[1..]) + 1] == [line[0]] + line[1..][..FirstEquals(line[1..])];
      FirstEquals(line[1..]) + 1
  }

  /** splitDictionaryLine: a single character before '=' comes first, then the first '='. */
  function SplitLine(line: Text): Option<(Text, Text)> {
    if |line| >= 2 && line[1] == EQUALS then Some((line[..1], line[2..]))
    else if FirstEquals(line) < |line| then Some((line[..FirstEquals(line)], line[FirstEquals(line) + 1..]))
    else None
  }

  function TrimReturns(line: Text): Text {
    if line != [] && line[|line| - 1] == RETURN then TrimReturns(line[..|line| - 1]) else line
  }

  predicate AllBinary(t: Text) {
    forall k :: 0 <= k < |t| ==> t[k] == 48 || t[k] == 49
  }

  function ToBits(t: Text): Bits {
    seq(|t|, k requires 0 <= k < |t| => t[k] == 49)
  }

  /** The entry a line carries, if it carries one. */
  function Entry(line: Text): Option<(Text, Bits)> {
    match SplitLine(TrimReturns(line))
    case Some((value, bits)) => if bits != [] && AllBinary(bits) then Some((value, ToBits(bits))) else None
    case None => None
  }

  /** "==101" is the code of the equals sign, whatever the rest of the line holds. */
  lemma EqualsSignLine(bits: Text)
    ensures SplitLine([EQUALS, EQUALS] + bits) == Some(([EQUALS], bits))
  {
    var line := [EQUALS, EQUALS] + bits;
    assert line[..1] == [EQUALS] && line[2..] == bits;
  }

  /** Line k gives value this code. */
  ghost predicate Gives(lines: seq<Text>, k: int, value: Text, code: Bits) {
    0 <= k < |lines| && Entry(lines[k]) == Some((value, code))
  }

  /** code is the shortest any line gives value, and some line gives it. */
  ghost predicate Shortest(lines: seq<Text>, value: Text, code: Bits) {
    && (exists k :: Gives(lines, k, value, code))
    && (forall k, other :: Gives(lines, k, value, other) ==> |code| <= |other|)
  }

  ghost predicate Mentioned(lines: seq<Text>, value: Text) {
    exists k, code :: Gives(lines, k, value, code)
  }

  /** The first of the shortest codes the lines give value. */
  function Best(lines: seq<Text>, value: Text): Option<Bits> {
    if lines == [] then None
    else
      var n := |lines| - 1;
      Better(Best(lines[..n], value), Entry(lines[n]), value)
  }

  /** What one more entry makes of the best so far: a strictly shorter code wins. */
  function Better(best: Option<Bits>, entry: Option<(Text, Bits)>, value: Text): Option<Bits> {
    if entry.None? || entry.value.0 != value || (best.Some? && |best.value| <= |entry.value.1|) then best
    else Some(entry.value.1)
  }

  lemma {:induction false} BestIsShortest(lines: seq<Text>, value: Text)
    ensures match Best(lines, value)
            case Some(code) => code != [] && Shortest(lines, value, code)
            case None => !Mentioned(lines, value)
  {
    if lines == [] {
    } else {
      var n := |lines| - 1;
      var before := lines[..n];
      BestIsShortest(before, value);
      forall k, code | Gives(lines, k, value, code) ensures k == n || Gives(before, k, value, code) {}
      forall k, code | Gives(before, k, value, code) ensures Gives(lines, k, value, code) {}
      if Entry(lines[n]).Some? && Entry(lines[n]).value.0 == value {
        assert Gives(lines, n, value, Entry(lines[n]).value.1);
      }
    }
  }

  /** Of the lines that give a value its shortest code the first is the one kept. */
  lemma {:induction false} BestIsFirst(lines: seq<Text>, value: Text)
    ensures Best(lines, value).Some? ==>
              exists k :: && Gives(lines, k, value, Best(lines, value).value)
                          && forall j, other :: j < k && Gives(lines, j, value, other) ==> |other| > |Best(lines, value).value|
  {
    if lines != [] {
      var n := |lines| - 1;
      var before := lines[..n];
      BestIsFirst(before, value);
      BestIsShortest(before, value);
      forall k, code | 0 <= k < n ensures Gives(lines, k, value, code) <==> Gives(before, k, value, code) {}
      if Best(lines, value).Some? {
        var code := Best(lines, value).value;
        var k := if Best(lines, value) == Best(before, value) then FirstGiver(before, value, code) else n;
        assert Gives(lines, k, value, code);
        forall j, other | j < k && Gives(lines, j, value, other) ensures |other| > |code| {
          assert Gives(before, j, value, other);
        }
      }
    }
  }

  ghost function FirstGiver(lines: seq<Text>, value: Text, code: Bits): (k: int)
    requires exists k :: Gives(lines, k, value, code) && forall j, other :: j < k && Gives(lines, j, value, other) ==> |other| > |code|
    ensures Gives(lines, k, value, code) && forall j, other :: j < k && Gives(lines, j, value, other) ==> |other| > |code|
  {
    var k :| Gives(lines, k, value, code) && forall j, other :: j < k && Gives(lines, j, value, other) ==> |other| > |code|;
    k
  }

  // ---- What a line says ---------------------------------------------------------------------------------

  function Digits(code: Bits): (t: Text)
    ensures |t| == |code|
  {
    seq(|code|, k requires 0 <= k < |code| => if code[k] then 49 else 48)
  }

  /** A value, "=", the code's digits, and carriage returns. */
  function Line(value: Text, code: Bits, crs: nat): Text {
    value + [61] + Digits(code) + seq(crs, k => 13)
  }

  /** A value a line can name: one byte, whichever it is, or bytes without "=". */
  predicate Nameable(value: Text) {
    |value| == 1 || 61 !in value
  }

  lemma {:induction false} Trimmed(t: Text, n: nat)
    requires t != [] && t[|t| - 1] != 13
    ensures TrimReturns(t + seq(n, k => 13)) == t
  {
    var line := t + seq(n, k => 13);
    if n == 0 {
      assert line == t;
    } else {
      Trimmed(t, n - 1);
      assert line[..|line| - 1] == t + seq(n - 1, k => 13);
    }
  }

  lemma {:induction false} FirstEqualsIs(value: Text, rest: Text)
    requires 61 !in value
    ensures FirstEquals(value + [61] + rest) == |value|
  {
    var line := value + [61] + rest;
    if value != [] {
      FirstEqualsIs(value[1..], rest);
      assert line[1..] == value[1..] + [61] + rest;
    }
  }

  /** Every value a line can name, the equals sign and the terminator's empty one among them, is read back with its
      code. */
  lemma {:induction false} LineReads(value: Text, code: Bits, crs: nat)
    requires Nameable(value) && code != []
    ensures Entry(Line(value, code, crs)) == Some((value, code))
  {
    var t, digits := value + [61] + Digits(code), Digits(code);
    assert t[|t| - 1] == digits[|digits| - 1];
    Trimmed(t, crs);
    if |value| != 1 { FirstEqualsIs(value, digits); }
    assert ToBits(digits) == code;
    if |value| == 1 {
      assert t[..1] == value && t[2..] == digits;
    } else {
      assert value != [] ==> t[1] == value[1];
      assert value == [] ==> t[1] == digits[0];
      assert t[..|value|] == value && t[|value| + 1..] == digits;
    }
  }

  /** And a line that carries an entry is such a line. */
  lemma {:induction false} LineIs(line: Text)
    requires Entry(line).Some?
    ensures var (value, code) := Entry(line).value;
            Nameable(value) && code != [] && exists crs: nat :: line == Line(value, code, crs)
  {
    TrimmedOff(line);
    var t := TrimReturns(line);
    var (value, code) := Entry(line).value;
    var (v, bits) := SplitLine(t).value;
    assert Digits(code) == bits;
    assert t == value + [61] + bits;
    assert line == Line(value, code, |line| - |t|);
  }

  lemma {:induction false} TrimmedOff(line: Text)
    ensures |TrimReturns(line)| <= |line|
    ensures line == TrimReturns(line) + seq(|line| - |TrimReturns(line)|, k => 13)
    decreases |line|
  {
    if line != [] && line[|line| - 1] == RETURN { TrimmedOff(line[..|line| - 1]); }
  }

  function Insert(x: nat, s: seq<nat>): seq<nat> {
    if s == [] || x >= s[0] then [x] + s else [s[0]] + Insert(x, s[1..])
  }

  /** sort.Reverse of an integer slice. */
  function Descending(s: seq<nat>): seq<nat> {
    if s == [] then [] else Insert(s[0], Descending(s[1..]))
  }

  ghost predicate Descends(s: seq<nat>) {
    forall i, j :: 0 <= i < j < |s| ==> s[i] >= s[j]
  }

  lemma {:induction false} InsertMembers(x: nat, s: seq<nat>)
    ensures forall n :: n in Insert(x, s) <==> n == x || n in s
  {
    if s != [] && x < s[0] {
      InsertMembers(x, s[1..]);
      assert s == [s[0]] + s[1..];
    }
  }

  lemma {:induction false} InsertSorts(x: nat, s: seq<nat>)
    requires Descends(s)
    ensures Descends(Insert(x, s))
  {
    if s != [] && x < s[0] {
      InsertSorts(x, s[1..]);
      InsertMembers(x, s[1..]);
      var t := Insert(x, s[1..]);
      forall j | 0 <= j < |t| ensures t[j] <= s[0] { assert t[j] in t; }
    }
  }

  lemma {:induction false} DescendingSorts(s: seq<nat>)
    ensures Descends(Descending(s)) && forall n :: n in Descending(s) <==> n in s
  {
    if s == [] {
    } else {
      DescendingSorts(s[1..]);
      InsertSorts(s[0], Descending(s[1..]));
      InsertMembers(s[0], Descending(s[1..]));
      assert s == [s[0]] + s[1..];
    }
  }

  // ---- What the coder computes -----------------------------------------------------------------------

  type Codes = map<Text, Bits>

  /** The length of the longest value among the codes that text starts with and that has at most
      n bytes; zero when there is none. */
  function LongestUpTo(codes: Codes, text: Text, n: nat): (r: nat)
    requires n <= |text|
    ensures r <= n && (r > 0 ==> text[..r] in codes)
    ensures forall k :: r < k <= n ==> text[..k] !in codes
  {
    if n == 0 then 0 else if text[..n] in codes then n else LongestUpTo(codes, text, n - 1)
  }

  function Longest(codes: Codes, text: Text): (r: nat)
    ensures r <= |text| && (r > 0 ==> text[..r] in codes)
  {
    LongestUpTo(codes, text, |text|)
  }

  /** The values the encoder takes the text apart into, longest match first. */
  function Tokens(codes: Codes, text: Text): (r: Option<seq<Text>>)
    ensures r.Some? ==> (forall k :: 0 <= k < |r.value| ==> r.value[k] in codes) && Joined(r.value) == text
  {
    if text == [] then Some([])
    else
      var n := Longest(codes, text);
      if n == 0 then None
      else
        match Tokens(codes, text[n..])
        case None => None
        case Some(rest) =>
          assert ([text[..n]] + rest)[1..] == rest;
          Some([text[..n]] + rest)
  }

  function Joined(tokens: seq<Text>): Text {
    if tokens == [] then [] else tokens[0] + Joined(tokens[1..])
  }

  function Coded(codes: Codes, tokens: seq<Text>): Bits
    requires forall k :: 0 <= k < |tokens| ==> tokens[k] in codes
  {
    if tokens == [] then [] else codes[tokens[0]] + Coded(codes, tokens[1..])
  }

  /** How many bits fill whole bytes, the first one six bits wide. */
  function Total(n: nat): (r: nat)
    ensures r >= n && r >= 6 && r % 8 == 6 && (r < n + 8 || r == 6)
  {
    if n <= 6 then 6 else (n + 1) / 8 * 8 + 6
  }

  /** The filler: whole terminators, then as much of one as fits. */
  function Filler(terminator: Bits, need: nat): (r: Bits)
    requires terminator != []
    ensures |r| == need
  {
    if need < |terminator| then terminator[..need] else terminator + Filler(terminator, need - |terminator|)
  }

  function Padded(terminator: Bits, bits: Bits): Bits
    requires terminator != []
  {
    bits + Filler(terminator, Total(|bits|) - |bits|)
  }

  /** One byte from width bits at `at`, missing ones read as zero. */
  function ByteOf(bits: Bits, at: nat, width: nat): (r: nat)
    ensures r < Pow2(width)
  {
    if width == 0 then 0
    else 2 * ByteOf(bits, at, width - 1) + if at + width - 1 < |bits| && bits[at + width - 1] then 1 else 0
  }

  function PackFrom(bits: Bits, at: nat): seq<Byte>
    decreases |bits| - at
  {
    if at >= |bits| then [] else WidthFits(); [ByteOf(bits, at, 8)] + PackFrom(bits, at + 8)
  }

  lemma WidthFits()
    ensures Pow2(6) == 64 && Pow2(8) == 256
  {
  }

  function Pack(bits: Bits): seq<Byte> {
    WidthFits(); [ByteOf(bits, 0, FIRST_BYTE_BITS)] + PackFrom(bits, FIRST_BYTE_BITS)
  }

  function Unpack(data: seq<Byte>): Bits {
    if data == [] then [] else BitsBelow(data[0], 6) + UnpackRest(data[1..])
  }

  function UnpackRest(data: seq<Byte>): Bits {
    if data == [] then [] else BitsBelow(data[0], 8) + UnpackRest(data[1..])
  }

  // ---- Packing is lossless -----------------------------------------------------------------------------

  lemma {:induction false} ByteOfUndone(bits: Bits, at: nat, width: nat)
    requires at + width <= |bits|
    ensures BitsBelow(ByteOf(bits, at, width), width) == bits[at..at + width]
  {
    if width == 0 {
    } else {
      ByteOfUndone(bits, at, width - 1);
      var b := ByteOf(bits, at, width - 1);
      assert ByteOf(bits, at, width) / 2 == b;
      assert bits[at..at + width] == bits[at..at + width - 1] + [bits[at + width - 1]];
    }
  }

  lemma {:induction false} PackRestUndone(bits: Bits, at: nat, bytes: nat)
    requires |bits| == at + 8 * bytes
    ensures UnpackRest(PackFrom(bits, at)) == bits[at..]
    decreases bytes
  {
    if bytes == 0 {
    } else {
      WidthFits();
      hide ByteOf, BitsBelow, Pow2;
      ByteOfUndone(bits, at, 8);
      PackRestUndone(bits, at + 8, bytes - 1);
      var rest := PackFrom(bits, at + 8);
      assert PackFrom(bits, at)[1..] == rest;
      assert bits[at..at + 8] + bits[at + 8..] == bits[at..];
    }
  }

  /** A reader of the packed bytes sees exactly the bits packed: six from the first byte, eight
      from each one after. */
  lemma PackUndone(bits: Bits)
    requires |bits| >= 6 && |bits| % 8 == 6
    ensures Unpack(Pack(bits)) == bits
  {
    ByteOfUndone(bits, 0, FIRST_BYTE_BITS);
    PackRestUndone(bits, FIRST_BYTE_BITS, |bits| / 8);
    WidthFits();
    assert Pack(bits)[1..] == PackFrom(bits, FIRST_BYTE_BITS);
    assert bits[..FIRST_BYTE_BITS] + bits[FIRST_BYTE_BITS..] == bits;
  }

  // ---- The tree ------------------------------------------------------------------------------------------

  /** A node of the decoder's tree. */
  datatype Node = Node(children: map<bool, Node>, leaf: Option<Text>)

  const EMPTY := Node(map[], None)

  function Grow(t: Node, code: Bits, value: Text): Node
    decreases |code|
  {
    if code == [] then t.(leaf := Some(value))
    else
      var child := if code[0] in t.children then t.children[code[0]] else EMPTY;
      t.(children := t.children[code[0] := Grow(child, code[1..], value)])
  }

  /** The node a path of bits leads to. */
  function At(t: Node, path: Bits): Option<Node>
    decreases |path|
  {
    if path == [] then Some(t)
    else if path[0] in t.children then At(t.children[path[0]], path[1..])
    else None
  }

  /** The value at the end of a path, if the path leads to a leaf. */
  function Leaf(t: Node, path: Bits): Option<Text> {
    var n := At(t, path);
    if n.Some? then n.value.leaf else None
  }

  /** Inserting a code makes its prefixes paths and its end a leaf, and changes nothing else. */
  lemma {:induction false} GrowAdds(t: Node, code: Bits, value: Text, path: Bits)
    ensures At(Grow(t, code, value), path).Some? <==> At(t, path).Some? || path <= code
    ensures Leaf(Grow(t, code, value), path) == if path == code then Some(value) else Leaf(t, path)
    decreases |code|
  {
    if path == [] || code == [] {
    } else if path[0] == code[0] {
      var child := if code[0] in t.children then t.children[code[0]] else EMPTY;
      GrowAdds(child, code[1..], value, path[1..]);
      assert path == [path[0]] + path[1..] && code == [code[0]] + code[1..];
      assert path <= code <==> path[1..] <= code[1..];
      assert path == code <==> path[1..] == code[1..];
      if code[0] !in t.children { EmptyHasNoPaths(path[1..]); }
    } else {
      assert !(path <= code);
    }
  }

  lemma EmptyHasNoPaths(path: Bits)
    ensures path != [] ==> At(EMPTY, path).None?
    ensures Leaf(EMPTY, path) == None
  {
  }

  /** A table of codes in the order they are inserted; the terminator's value is empty. */
  type Table = seq<(Text, Bits)>

  function Tree(table: Table): Node {
    if table == [] then EMPTY
    else var last := table[|table| - 1]; Grow(Tree(table[..|table| - 1]), last.1, last.0)
  }

  ghost predicate PrefixFree(table: Table) {
    && (forall i :: 0 <= i < |table| ==> table[i].1 != [])
    && (forall i, j :: 0 <= i < |table| && 0 <= j < |table| && i != j ==> !(table[i].1 <= table[j].1))
  }

  /** The tree of a prefix-free table has the codes' prefixes for paths and the codes for leaves. */
  lemma {:induction false} TreeHolds(table: Table, path: Bits)
    requires PrefixFree(table)
    ensures At(Tree(table), path).Some? <==> path == [] || exists i :: 0 <= i < |table| && path <= table[i].1
    ensures forall i :: 0 <= i < |table| && path == table[i].1 ==> Leaf(Tree(table), path) == Some(table[i].0)
    ensures (forall i :: 0 <= i < |table| ==> path != table[i].1) ==> Leaf(Tree(table), path) == None
  {
    if table != [] {
      var n := |table| - 1;
      var last := table[n];
      TreeHolds(table[..n], path);
      GrowAdds(Tree(table[..n]), last.1, last.0, path);
      assert forall i :: 0 <= i < n ==> table[..n][i] == table[i];
    } else {
      EmptyHasNoPaths(path);
    }
  }

  // ---- Reading ---------------------------------------------------------------------------------------------

  /** Decode on bits, from node cur: it stops at the terminator, or off the tree, or out of bits. */
  function Read(root: Node, cur: Node, bits: Bits, out: Text): (Text, bool)
    decreases |bits|
  {
    if bits == [] || bits[0] !in cur.children then (out, false)
    else
      var next := cur.children[bits[0]];
      match next.leaf
      case None => Read(root, next, bits[1..], out)
      case Some(value) => if value == [] then (out, true) else Read(root, root, bits[1..], out + value)
  }

  /** The box's reader: it reads a title record to its last byte, terminator or not. The flag
      says it never left the tree. */
  function ReadOn(root: Node, cur: Node, bits: Bits, out: Text): (Text, bool)
    decreases |bits|
  {
    if bits == [] then (out, true)
    else if bits[0] !in cur.children then (out, false)
    else
      var next := cur.children[bits[0]];
      match next.leaf
      case None => ReadOn(root, next, bits[1..], out)
      case Some(value) => ReadOn(root, root, bits[1..], out + value)
  }

  /** A path followed from the node another path leads to. */
  lemma {:induction false} AtSplits(t: Node, p: Bits, q: Bits)
    requires At(t, p).Some?
    ensures At(t, p + q) == At(At(t, p).value, q)
    decreases |p|
  {
    if p == [] {
      assert p + q == q;
    } else {
      AtSplits(t.children[p[0]], p[1..], q);
      assert (p + q)[1..] == p[1..] + q;
    }
  }

  /** Part of a code that is not all of it leads to a node that is not a leaf. */
  lemma PrefixIsInner(table: Table, i: nat, path: Bits)
    requires PrefixFree(table) && i < |table| && path <= table[i].1 && path != table[i].1
    ensures At(Tree(table), path).Some? && Leaf(Tree(table), path) == None
  {
    TreeHolds(table, path);
    forall j | 0 <= j < |table| ensures path != table[j].1 {
      assert j != i ==> !(table[j].1 <= table[i].1);
    }
  }

  /** From part of code i, reading the rest of the code arrives at its leaf. */
  lemma {:induction false} ReadsCode(table: Table, i: nat, done: Bits, todo: Bits, rest: Bits, out: Text)
    requires PrefixFree(table) && i < |table| && table[i].1 == done + todo && todo != []
    ensures var t := Tree(table);
            && At(t, done).Some?
            && Read(t, At(t, done).value, todo + rest, out) ==
               (if table[i].0 == [] then (out, true) else Read(t, t, rest, out + table[i].0))
            && ReadOn(t, At(t, done).value, todo + rest, out) == ReadOn(t, t, rest, out + table[i].0)
    decreases |todo|
  {
    var t := Tree(table);
    PrefixIsInner(table, i, done);
    var step := done + todo[..1];
    TreeHolds(table, step);
    AtSplits(t, done, todo[..1]);
    var cur := At(t, done).value;
    assert At(cur, todo[..1]) == (if todo[0] in cur.children then At(cur.children[todo[0]], []) else None);
    assert (todo + rest)[0] == todo[0] && (todo + rest)[1..] == todo[1..] + rest;
    if |todo| == 1 {
      assert todo == todo[..1] && todo[1..] + rest == rest;
    } else {
      assert table[i].1 == step + todo[1..] && step <= table[i].1 && step != table[i].1;
      PrefixIsInner(table, i, step);
      ReadsCode(table, i, step, todo[1..], rest, out);
    }
  }

  /** Part of a code, read to the end of the data, emits nothing and stays on the tree. */
  lemma {:induction false} ReadsPart(table: Table, i: nat, done: Bits, todo: Bits, out: Text)
    requires PrefixFree(table) && i < |table| && done + todo <= table[i].1 && done + todo != table[i].1
    ensures var t := Tree(table); At(t, done).Some? && ReadOn(t, At(t, done).value, todo, out) == (out, true)
    decreases |todo|
  {
    var t := Tree(table);
    assert done <= table[i].1 && done != table[i].1;
    PrefixIsInner(table, i, done);
    if todo == [] {
    } else {
      var step := done + todo[..1];
      assert step + todo[1..] == done + todo;
      assert step <= table[i].1 && step != table[i].1;
      PrefixIsInner(table, i, step);
      AtSplits(t, done, todo[..1]);
      var cur := At(t, done).value;
      assert At(cur, todo[..1]) == (if todo[0] in cur.children then At(cur.children[todo[0]], []) else None);
      ReadsPart(table, i, step, todo[1..], out);
    }
  }

  /** The filler after the terminator is inert: it emits nothing and stays on the tree. */
  lemma {:induction false} FillerIsInert(table: Table, need: nat, out: Text)
    requires PrefixFree(table) && table != [] && table[|table| - 1].0 == []
    ensures var t := Tree(table); ReadOn(t, t, Filler(table[|table| - 1].1, need), out) == (out, true)
    decreases need
  {
    var t, i := Tree(table), |table| - 1;
    var end := table[i].1;
    if need < |end| {
      ReadsPart(table, i, [], end[..need], out);
      assert [] + end[..need] == end[..need];
    } else {
      ReadsCode(table, i, [], end, Filler(end, need - |end|), out);
      assert [] + end == end && out + [] == out;
      FillerIsInert(table, need - |end|, out);
    }
  }

  /** The table the decoder builds from the codes in some order, the terminator last. */
  ghost predicate TableOf(table: Table, codes: Codes, terminator: Bits) {
    && table != [] && table[|table| - 1] == ([], terminator)
    && (forall i :: 0 <= i < |table| - 1 ==> table[i].0 in codes && codes[table[i].0] == table[i].1)
    && (forall v :: v in codes ==> exists i :: 0 <= i < |table| - 1 && table[i] == (v, codes[v]))
    && [] !in codes
  }

  lemma RowOf(table: Table, codes: Codes, terminator: Bits, v: Text) returns (i: nat)
    requires TableOf(table, codes, terminator) && PrefixFree(table) && v in codes
    ensures i < |table| && table[i] == (v, codes[v]) && v != [] && codes[v] != []
  {
    i :| 0 <= i < |table| - 1 && table[i] == (v, codes[v]);
  }

  /** Both readers turn coded values back into text. */
  lemma {:induction false} ReadsTokens(table: Table, codes: Codes, terminator: Bits, tokens: seq<Text>, rest: Bits, out: Text)
    requires TableOf(table, codes, terminator) && PrefixFree(table)
    requires forall k :: 0 <= k < |tokens| ==> tokens[k] in codes
    ensures var t := Tree(table);
            && Read(t, t, Coded(codes, tokens) + rest, out) == Read(t, t, rest, out + Joined(tokens))
            && ReadOn(t, t, Coded(codes, tokens) + rest, out) == ReadOn(t, t, rest, out + Joined(tokens))
    decreases |tokens|
  {
    hide Tree, Read, ReadOn, PrefixFree, TableOf;
    if tokens == [] {
      assert Coded(codes, tokens) + rest == rest && out + Joined(tokens) == out;
    } else {
      var i := RowOf(table, codes, terminator, tokens[0]);
      var later := Coded(codes, tokens[1..]) + rest;
      assert Coded(codes, tokens) + rest == codes[tokens[0]] + later;
      assert Joined(tokens) == tokens[0] + Joined(tokens[1..]);
      hide Coded, Joined;
      assert [] + codes[tokens[0]] == codes[tokens[0]];
      ReadsCode(table, i, [], codes[tokens[0]], later, out);
      ReadsTokens(table, codes, terminator, tokens[1..], rest, out + tokens[0]);
      assert out + tokens[0] + Joined(tokens[1..]) == out + Joined(tokens);
    }
  }

  /** What Encode answers: the packed bytes, or nothing when the values do not cover the text. */
  function Encoded(codes: Codes, terminator: Bits, text: Text): Option<seq<Byte>>
    requires terminator != []
  {
    match Tokens(codes, text)
    case None => None
    case Some(tokens) => Some(Pack(Padded(terminator, Coded(codes, tokens) + terminator)))
  }

  /** Decode's answer on the bytes, and the box's, for codes inserted in the order of table. */
  function Decoded(table: Table, data: seq<Byte>): (Text, bool) {
    Read(Tree(table), Tree(table), Unpack(data), [])
  }

  function Shown(table: Table, data: seq<Byte>): (Text, bool) {
    ReadOn(Tree(table), Tree(table), Unpack(data), [])
  }

  /** Over a prefix-free dictionary, whatever is encoded decodes to itself and terminates; and a
      reader that goes on to the last byte shows exactly the same text, whatever order the
      decoder met the codes in. */
  lemma RoundTrip(table: Table, codes: Codes, terminator: Bits, text: Text)
    requires TableOf(table, codes, terminator) && PrefixFree(table)
    requires Tokens(codes, text).Some?
    ensures terminator != []
    ensures var data := Encoded(codes, terminator, text).value;
            Decoded(table, data) == (text, true) && Shown(table, data) == (text, true)
  {
    assert terminator == table[|table| - 1].1 != [];
    var tokens, t := Tokens(codes, text).value, Tree(table);
    var need := EncodedIs(codes, terminator, text);
    hide Tree, Read, ReadOn, PrefixFree, Tokens, Unpack, Filler, Coded, Joined, Encoded, TableOf;
    ReadsTokens(table, codes, terminator, tokens, terminator + Filler(terminator, need), []);
    ReadsEnd(table, codes, terminator, need, [] + Joined(tokens));
    assert [] + Joined(tokens) == text;
  }

  /** The bits a reader finds in an encoded text. */
  lemma EncodedIs(codes: Codes, terminator: Bits, text: Text) returns (need: nat)
    requires terminator != [] && Tokens(codes, text).Some?
    ensures Unpack(Encoded(codes, terminator, text).value) ==
            Coded(codes, Tokens(codes, text).value) + (terminator + Filler(terminator, need))
  {
    hide Pack, Unpack, Filler, Tokens, Coded, Total;
    var body := Coded(codes, Tokens(codes, text).value) + terminator;
    need := Total(|body|) - |body|;
    var filler := Filler(terminator, need);
    PackUndone(body + filler);
    assert body + filler == Coded(codes, Tokens(codes, text).value) + (terminator + filler);
  }

  lemma ReadsEnd(table: Table, codes: Codes, terminator: Bits, need: nat, out: Text)
    requires TableOf(table, codes, terminator) && PrefixFree(table) && terminator != []
    ensures var t, bits := Tree(table), terminator + Filler(terminator, need);
            Read(t, t, bits, out) == (out, true) && ReadOn(t, t, bits, out) == (out, true)
  {
    assert [] + terminator == terminator && out + [] == out;
    ReadsCode(table, |table| - 1, [], terminator, Filler(terminator, need), out);
    FillerIsInert(table, need, out);
    hide Tree, Read, ReadOn, Filler;
  }

  /** Reading only adds to what has been read. */
  lemma {:induction false} ReadExtends(root: Node, cur: Node, bits: Bits, out: Text)
    ensures out <= Read(root, cur, bits, out).0
    decreases |bits|
  {
    if bits != [] && bits[0] in cur.children {
      var next := cur.children[bits[0]];
      if next.leaf.None? {
        ReadExtends(root, next, bits[1..], out);
      } else if next.leaf.value != [] {
        ReadExtends(root, root, bits[1..], out + next.leaf.value);
      }
    }
  }

  datatype LoadError = NoTerminator | NoCodes

  function Lookup(codes: Codes, value: Text): Option<Bits> {
    if value in codes then Some(codes[value]) else None
  }

  class HuffmanDictionary {
    var codes: Codes
    var terminator: Bits
    var lengths: seq<nat>

    // The coder's tables, as Load leaves them.
    ghost predicate Valid()
      reads this
    {
      terminator != [] && [] !in codes && Descends(lengths) && (forall v :: v in codes ==> |v| in lengths)
    }

    constructor ()
      ensures codes == map[] && terminator == [] && lengths == []
    {
      codes, terminator, lengths := map[], [], [];
    }

    /** The tables hold the best code of every value on the lines so far. */
    ghost predicate Holds(lines: seq<Text>)
      reads this
    {
      && (forall v :: v != [] ==> Lookup(codes, v) == Best(lines, v))
      && [] !in codes
      && Best(lines, []) == (if terminator == [] then None else Some(terminator))
    }

    // One line of the file.
    method Take(ghost before: seq<Text>, line: Text)
      requires Holds(before) && forall v :: v in codes ==> |v| in lengths
      modifies this
      ensures Holds(before + [line]) && forall v :: v in codes ==> |v| in lengths
    {
      ghost var after := before + [line];
      assert after[..|before|] == before;
      forall v: Text ensures Best(after, v) == Better(Best(before, v), Entry(line), v) {}
      hide Entry, Best;
      var entry := Entry(line);
      if entry.None? { return; }
      var (value, bits) := entry.value;
      EntryHasBits(line);
      if value == [] {
        if terminator == [] || |bits| < |terminator| { terminator := bits; }
        return;
      }
      if value in codes && |codes[value]| <= |bits| { return; }
      codes := codes[value := bits];
      if |value| !in lengths { lengths := lengths + [|value|]; }
    }

    method Fill(lines: seq<Text>)
      requires codes == map[] && terminator == [] && lengths == []
      modifies this
      ensures Holds(lines) && forall v :: v in codes ==> |v| in lengths
    {
      for k := 0 to |lines|
        invariant Holds(lines[..k]) && forall v :: v in codes ==> |v| in lengths
      {
        hide Best, Holds;
        Take(lines[..k], lines[k]);
        assert lines[..k] + [lines[k]] == lines[..k + 1];
      }
      assert lines[..|lines|] == lines;
    }

    // LoadHuffmanDictionary, after the file has been cut into lines.
    method Load(lines: seq<Text>) returns (error: Option<LoadError>)
      requires codes == map[] && terminator == [] && lengths == []
      modifies this
      ensures KeptShortest(lines, codes, terminator)
      ensures error == (if !Mentioned(lines, []) then Some(NoTerminator) else if codes == map[] then Some(NoCodes) else None)
      ensures error.None? ==> Valid()
    {
      Fill(lines);
      HeldIsShortest(lines, codes, terminator);
      BestIsShortest(lines, []);
      hide Best, Shortest, Mentioned, KeptShortest, Descends;
      if terminator == [] { return Some(NoTerminator); }
      if codes == map[] { return Some(NoCodes); }
      DescendingSorts(lengths);
      lengths := Descending(lengths);
      error := None;
    }

    // The bit string of the text's values, longest match first, or nothing at the first byte that
    // starts no value.
    method EncodeBits(text: Text) returns (bits: Option<Bits>)
      requires Valid()
      ensures bits == CodedFrom(codes, text)
    {
      hide Tokens, Coded, Longest, CodedFrom, Descends;
      CodedNothing(codes);
      assert text[0..] == text;
      var built: Bits, i := [], 0;
      AfterNothing(CodedFrom(codes, text));
      while i < |text|
        invariant i <= |text|
        invariant CodedFrom(codes, text) == After(built, CodedFrom(codes, text[i..]))
      {
        var rest := text[i..];
        var n := Match(rest);
        CodedStep(codes, rest);
        if n == 0 { return None; }
        assert rest[n..] == text[i + n..];
        AfterTwice(built, codes[rest[..n]], CodedFrom(codes, rest[n..]));
        built := built + codes[rest[..n]];
        i := i + n;
      }
      assert text[|text|..] == [] && built + [] == built;
      bits := Some(built);
    }

    // The loop over the value lengths, longest first: the first that fits and is a value wins.
    method Match(rest: Text) returns (n: nat)
      requires Valid()
      ensures n == Longest(codes, rest)
    {
      hide Longest;
      for k := 0 to |lengths|
        invariant Missed(codes, lengths, rest, k)
      {
        if lengths[k] <= |rest| && rest[..lengths[k]] in codes {
          FirstIsLongest(codes, lengths, rest, k);
          return lengths[k];
        }
      }
      NoneIsZero(codes, lengths, rest);
      n := 0;
    }

    // The loop that counts out whole bytes.
    method TotalBits(n: nat) returns (total: nat)
      ensures total == Total(n)
    {
      total := FIRST_BYTE_BITS;
      while total < n
        invariant total % 8 == 6 && total >= 6 && (total < n + 8 || total == 6)
        decreases n - total
      {
        total := total + 8;
      }
    }

    // padToByteBoundary
    method PadToByteBoundary(bits: Bits) returns (padded: Bits)
      requires Valid()
      ensures padded == Padded(terminator, bits)
    {
      var total := TotalBits(|bits|);
      hide Total;
      padded := bits;
      while |padded| < total
        invariant |padded| <= total
        invariant padded + Filler(terminator, total - |padded|) == Padded(terminator, bits)
        decreases total - |padded|
      {
        var need := total - |padded|;
        if need < |terminator| {
          padded := padded + terminator[..need];
          return;
        }
        var rest := Filler(terminator, need - |terminator|);
        assert padded + (terminator + rest) == padded + terminator + rest;
        padded := padded + terminator;
      }
      assert padded + [] == padded;
    }

    // packHuffman
    method PackHuffman(bits: Bits) returns (out: seq<Byte>)
      ensures out == Pack(bits)
    {
      WidthFits();
      var first := BitsToByte(bits, 0, FIRST_BYTE_BITS);
      out := [first];
      var i := FIRST_BYTE_BITS;
      while i < |bits|
        invariant i >= FIRST_BYTE_BITS
        invariant out + PackFrom(bits, i) == Pack(bits)
      {
        var b := BitsToByte(bits, i, 8);
        assert out + ([b] + PackFrom(bits, i + 8)) == out + [b] + PackFrom(bits, i + 8);
        out := out + [b];
        i := i + 8;
      }
    }

    method BitsToByte(bits: Bits, at: nat, width: nat) returns (value: int)
      ensures value == ByteOf(bits, at, width)
    {
      value := 0;
      for i := 0 to width
        invariant value == ByteOf(bits, at, i)
      {
        value := value * 2 + if at + i < |bits| && bits[at + i] then 1 else 0;
      }
    }

    method Encode(text: Text) returns (data: Option<seq<Byte>>)
      requires Valid()
      ensures data == Encoded(codes, terminator, text)
    {
      var bits := EncodeBits(text);
      if bits.None? { return None; }
      var padded := PadToByteBoundary(bits.value + terminator);
      var packed := PackHuffman(padded);
      data := Some(packed);
    }

    // Decode, with the codes inserted in the order given.
    method Decode(data: seq<Byte>, order: seq<Text>) returns (text: Text, ok: bool)
      requires forall k :: 0 <= k < |order| ==> order[k] in codes
      ensures (text, ok) == Decoded(Rows(codes, order) + [([], terminator)], data)
    {
      hide Unpack, UnpackFrom, BitsBelow, Tree, Read, Rows;
      var root := BuildTree(order);
      text, ok := [], false;
      var cur := root;
      UnpackEnds(data);
      OutOfBits(root);
      for i := 0 to |data|
        invariant !ok && Read(root, cur, UnpackFrom(data, i), text) == Read(root, root, Unpack(data), [])
      {
        UnpackStep(data, i);
        var done;
        ghost var rest := UnpackFrom(data, i + 1);
        cur, text, done, ok := DecodeByte(root, cur, data[i], if i == 0 then 6 else 8, text, rest);
        if done { return; }
      }
    }

    // The masks of one byte, from the highest down.
    method DecodeByte(root: Node, start: Node, b: Byte, width: nat, before: Text, ghost rest: Bits)
      returns (cur: Node, text: Text, done: bool, ok: bool)
      requires width <= 8
      ensures var r := Read(root, start, BitsBelow(b, width) + rest, before);
              if done then r == (text, ok) else !ok && r == Read(root, cur, rest, text)
    {
      cur, text, done, ok := start, before, false, false;
      var mask := width;
      while mask > 0
        invariant 0 <= mask <= width
        invariant Read(root, cur, BitsBelow(b, mask) + rest, text) == Read(root, start, BitsBelow(b, width) + rest, before)
      {
        mask := mask - 1;
        var bit := b / Pow2(mask) % 2 == 1;
        TopBit(b, mask);
        assert BitsBelow(b, mask + 1) + rest == [bit] + (BitsBelow(b, mask) + rest);
        if bit !in cur.children { return cur, text, true, false; }
        cur := cur.children[bit];
        if cur.leaf.Some? {
          if cur.leaf.value == [] { return cur, text, true, true; }
          text := text + cur.leaf.value;
          cur := root;
        }
      }
      assert BitsBelow(b, 0) + rest == rest;
    }

    method BuildTree(order: seq<Text>) returns (root: Node)
      requires forall k :: 0 <= k < |order| ==> order[k] in codes
      ensures root == Tree(Rows(codes, order) + [([], terminator)])
    {
      root := EMPTY;
      var rows := Rows(codes, order);
      for k := 0 to |order|
        invariant root == Tree(rows[..k])
      {
        assert rows[..k + 1][..k] == rows[..k];
        root := Grow(root, codes[order[k]], order[k]);
      }
      assert rows[..|order|] == rows;
      assert (rows + [([], terminator)])[..|rows|] == rows;
      root := Grow(root, terminator, []);
    }
  }

  function Rows(codes: Codes, order: seq<Text>): (r: Table)
    requires forall k :: 0 <= k < |order| ==> order[k] in codes
    ensures |r| == |order|
  {
    seq(|order|, k requires 0 <= k < |order| => (order[k], codes[order[k]]))
  }

  /** The bits from byte i on. */
  function UnpackFrom(data: seq<Byte>, i: nat): Bits
    requires i <= |data|
  {
    if i == 0 then Unpack(data) else UnpackRest(data[i..])
  }

  function CodedFrom(codes: Codes, text: Text): Option<Bits> {
    match Tokens(codes, text)
    case None => None
    case Some(tokens) => Some(Coded(codes, tokens))
  }

  function After(built: Bits, rest: Option<Bits>): Option<Bits> {
    if rest.None? then None else Some(built + rest.value)
  }

  lemma CodedNothing(codes: Codes)
    ensures CodedFrom(codes, []) == Some([])
  {
  }

  lemma AfterNothing(rest: Option<Bits>)
    ensures After([], rest) == rest
  {
    if rest.Some? { assert [] + rest.value == rest.value; }
  }

  lemma AfterTwice(a: Bits, b: Bits, rest: Option<Bits>)
    ensures After(a, After(b, rest)) == After(a + b, rest)
  {
    if rest.Some? { assert a + (b + rest.value) == a + b + rest.value; }
  }

  lemma CodedStep(codes: Codes, text: Text)
    requires text != []
    ensures var n := Longest(codes, text);
            CodedFrom(codes, text) == if n == 0 then None else After(codes[text[..n]], CodedFrom(codes, text[n..]))
  {
    var n := Longest(codes, text);
    if n > 0 && Tokens(codes, text[n..]).Some? {
      var rest := Tokens(codes, text[n..]).value;
      assert Tokens(codes, text) == Some([text[..n]] + rest);
      assert ([text[..n]] + rest)[1..] == rest;
    }
  }

  /** The first k lengths have been tried, and no value of those lengths starts the rest. */
  ghost predicate Missed(codes: Codes, lengths: seq<nat>, rest: Text, k: nat)
    requires k <= |lengths|
  {
    forall m :: 0 <= m < k && lengths[m] <= |rest| ==> rest[..lengths[m]] !in codes
  }

  ghost predicate Listed(codes: Codes, lengths: seq<nat>) {
    [] !in codes && Descends(lengths) && forall v :: v in codes ==> |v| in lengths
  }

  /** A value starting the rest has a length still to be tried. */
  lemma StillToCome(codes: Codes, lengths: seq<nat>, rest: Text, k: nat, r: nat)
    requires Listed(codes, lengths) && k <= |lengths| && Missed(codes, lengths, rest, k)
    requires r <= |rest|
    ensures rest[..r] in codes ==> exists m :: k <= m < |lengths| && lengths[m] == r
  {
    if rest[..r] in codes {
      assert |rest[..r]| in lengths;
      var m :| 0 <= m < |lengths| && lengths[m] == r;
    }
  }

  lemma FirstIsLongest(codes: Codes, lengths: seq<nat>, rest: Text, k: nat)
    requires Listed(codes, lengths) && k < |lengths| && Missed(codes, lengths, rest, k)
    requires lengths[k] <= |rest| && rest[..lengths[k]] in codes
    ensures Longest(codes, rest) == lengths[k]
  {
    var r := Longest(codes, rest);
    assert r >= lengths[k];
    StillToCome(codes, lengths, rest, k, r);
  }

  lemma NoneIsZero(codes: Codes, lengths: seq<nat>, rest: Text)
    requires Listed(codes, lengths) && Missed(codes, lengths, rest, |lengths|)
    ensures Longest(codes, rest) == 0
  {
    var r := Longest(codes, rest);
    StillToCome(codes, lengths, rest, |lengths|, r);
  }

  /** The first bit a mask reads is the highest of the bits below it. */
  lemma {:induction false} TopBit(b: Byte, w: nat)
    requires w < 8
    ensures BitsBelow(b, w + 1) == [b / Pow2(w) % 2 == 1] + BitsBelow(b, w)
    decreases w
  {
    if w == 0 {
    } else {
      TopBit(b / 2, w - 1);
      HalfAndShift(b, w - 1);
    }
  }

  lemma HalfAndShift(b: Byte, w: nat)
    requires w < 7
    ensures b / 2 / Pow2(w) == b / Pow2(w + 1)
  {
    assert Pow2(0) == 1 && Pow2(1) == 2 && Pow2(2) == 4 && Pow2(3) == 8;
    assert Pow2(4) == 16 && Pow2(5) == 32 && Pow2(6) == 64 && Pow2(7) == 128;
  }

  lemma UnpackEnds(data: seq<Byte>)
    ensures Unpack(data) == UnpackFrom(data, 0) && UnpackFrom(data, |data|) == []
  {
    assert data[|data|..] == [] && data[0..] == data;
  }

  lemma OutOfBits(root: Node)
    ensures forall cur, out :: Read(root, cur, [], out) == (out, false)
  {
  }

  lemma UnpackStep(data: seq<Byte>, i: nat)
    requires i < |data|
    ensures UnpackFrom(data, i) == BitsBelow(data[i], if i == 0 then 6 else 8) + UnpackFrom(data, i + 1)
  {
    assert data[i..][0] == data[i] && data[i..][1..] == data[i + 1..];
  }

  /** No code, the terminator's included, begins another. */
  ghost predicate PrefixFreeCodes(codes: Codes, terminator: Bits) {
    && terminator != []
    && (forall v :: v in codes ==> codes[v] != [] && !(codes[v] <= terminator) && !(terminator <= codes[v]))
    && (forall v, w :: v in codes && w in codes && v != w ==> !(codes[v] <= codes[w]))
  }

  /** An order in which a map of codes may be walked: every value once. */
  ghost predicate Walks(order: seq<Text>, codes: Codes) {
    && (forall k :: 0 <= k < |order| ==> order[k] in codes)
    && (forall v :: v in codes ==> v in order)
    && (forall i, j :: 0 <= i < j < |order| ==> order[i] != order[j])
  }

  lemma AnyOrderWillDo(codes: Codes, terminator: Bits, order: seq<Text>)
    requires PrefixFreeCodes(codes, terminator) && [] !in codes && Walks(order, codes)
    ensures var table := Rows(codes, order) + [([], terminator)];
            TableOf(table, codes, terminator) && PrefixFree(table)
  {
    var table := Rows(codes, order) + [([], terminator)];
    forall v | v in codes ensures exists i :: 0 <= i < |table| - 1 && table[i] == (v, codes[v]) {
      var i :| 0 <= i < |order| && order[i] == v;
      assert table[i] == (v, codes[v]);
    }
  }

  /** What Encode produces Decode reads back, in whatever order it meets the codes; and so does
      the box, which reads to the last byte. */
  lemma DictionaryRoundTrip(codes: Codes, terminator: Bits, order: seq<Text>, text: Text)
    requires PrefixFreeCodes(codes, terminator) && [] !in codes && Walks(order, codes)
    ensures var table := Rows(codes, order) + [([], terminator)];
            match Encoded(codes, terminator, text)
            case None => Tokens(codes, text).None?
            case Some(data) => Decoded(table, data) == (text, true) && Shown(table, data) == (text, true)
  {
    AnyOrderWillDo(codes, terminator, order);
    if Tokens(codes, text).Some? {
      RoundTrip(Rows(codes, order) + [([], terminator)], codes, terminator, text);
    }
    hide Tokens, Rows, Pack, Padded, Decoded, Shown, Coded;
  }

  /** Every value mentioned is kept with a shortest code of its own, the terminator too, and
      nothing else is kept. */
  ghost predicate KeptShortest(lines: seq<Text>, codes: Codes, terminator: Bits) {
    && (forall v :: v in codes ==> v != [] && Shortest(lines, v, codes[v]))
    && (forall v :: v != [] && Mentioned(lines, v) ==> v in codes)
    && (Mentioned(lines, []) ==> Shortest(lines, [], terminator))
  }

  lemma HeldIsShortest(lines: seq<Text>, codes: Codes, terminator: Bits)
    requires (forall v :: v != [] ==> Lookup(codes, v) == Best(lines, v)) && [] !in codes
    requires Best(lines, []) == (if terminator == [] then None else Some(terminator))
    ensures KeptShortest(lines, codes, terminator)
  {
    forall v: Text
      ensures v in codes ==> v != [] && Shortest(lines, v, codes[v])
      ensures v != [] && Mentioned(lines, v) ==> v in codes
    {
      BestIsShortest(lines, v);
      assert v != [] ==> Lookup(codes, v) == Best(lines, v);
      hide Best, Shortest, Mentioned;
    }
    BestIsShortest(lines, []);
    hide Best, Shortest, Mentioned;
  }

  lemma EntryHasBits(line: Text)
    ensures Entry(line).Some? ==> Entry(line).value.1 != []
  {
  }
}
