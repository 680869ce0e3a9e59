/**
  The identifier generator of `Array_Prototype::uuid()`.

  The generator draws eight numbers from `mt_rand`, forces the version and
  variant bits of a version-4 UUID (sections 4.1.3 and 4.1.1 of RFC 4122)
  into the fourth and fifth with PHP's bitwise `|`, and prints all eight with
  `%04x` and no separators. The random draws are inputs here; the model is
  the formatting that turns them into the identifier text.
 */
module Identifier {
  import opened Hex

  /** The eight values `mt_rand` returned, in argument order. */
  datatype Draws = Draws(
    timeLow0: nat, timeLow1: nat, timeMid: nat,
    timeHi: nat, clockSeq: nat,
    node0: nat, node1: nat, node2: nat)

  /** The ranges the eight `mt_rand` calls draw from. */
  predicate InRange(d: Draws) {
    && d.timeLow0 <= 0xffff && d.timeLow1 <= 0xffff && d.timeMid <= 0xffff
    && d.timeHi <= 0x0fff
    && d.clockSeq <= 0x3fff
    && d.node0 <= 0xffff && d.node1 <= 0xffff && d.node2 <= 0xffff
  }

  const VersionBits: nat := 0x4000
  const VariantBits: nat := 0x8000

  /** Powers of two, for `|`, which works bit by bit. */
  function Pow2(k: nat): (p: nat)
    ensures p >= 1
  {
    if k == 0 then 1 else 2 * Pow2(k - 1)
  }

  /** Four bits make one hex digit: `Pow2` and `Pow16` agree. */
  lemma {:induction false} Pow2OfPow16(k: nat)
    ensures Pow2(4 * k) == Pow16(k)
  {
    if k > 0 {
      Pow2OfPow16(k - 1);
      var j := 4 * (k - 1);
      assert Pow2(j + 4) == 2 * Pow2(j + 3) == 4 * Pow2(j + 2) == 8 * Pow2(j + 1) == 16 * Pow2(j);
    }
  }

  /** PHP's `|` on non-negative integers, one bit at a time from the least significant. */
  function BitOr(a: nat, b: nat): (r: nat)
    ensures a <= r && b <= r
    ensures r <= a + b
    decreases a + b
  {
    if a == 0 then b
    else if b == 0 then a
    else 2 * BitOr(a / 2, b / 2) + (if a % 2 == 1 || b % 2 == 1 then 1 else 0)
  }

  /**
    Or-ing bits that lie wholly above `a` is addition: this is why the
    version and variant markers leave the random bits below them intact.
   */
  lemma {:induction false} BitOrAbove(a: nat, h: nat, k: nat)
    requires a < Pow2(k)
    ensures BitOr(a, h * Pow2(k)) == a + h * Pow2(k)
    decreases k
  {
    var high := h * Pow2(k);
    if k > 0 && a != 0 && high != 0 {
      assert high == 2 * (h * Pow2(k - 1));
      BitOrAbove(a / 2, h, k - 1);
    }
  }

  /** The bit positions of the version and variant markers. */
  lemma Pow2Markers()
    ensures Pow2(12) == 0x1000 && Pow2(14) == 0x4000
  {
    Pow2OfPow16(3);
    assert Pow16(3) == 0x1000;
    assert Pow2(14) == 4 * Pow2(12);
  }

  /** The version and variant markers add to the draws they are or-ed into. */
  lemma MarkersAdd(d: Draws)
    requires InRange(d)
    ensures BitOr(d.timeHi, VersionBits) == d.timeHi + VersionBits
    ensures BitOr(d.clockSeq, VariantBits) == d.clockSeq + VariantBits
  {
    Pow2Markers();
    BitOrAbove(d.timeHi, 4, 12);
    BitOrAbove(d.clockSeq, 2, 14);
  }

  /**
    The eight arguments `sprintf` receives; on in-range draws the markers
    are added on top of the drawn bits.
   */
  function Words(d: Draws): (ws: seq<nat>)
    ensures |ws| == 8
    ensures InRange(d) ==>
      ws == [ d.timeLow0, d.timeLow1, d.timeMid,
              d.timeHi + VersionBits, d.clockSeq + VariantBits,
              d.node0, d.node1, d.node2 ]
  {
    var ws := [ d.timeLow0, d.timeLow1, d.timeMid,
      BitOr(d.timeHi, VersionBits),
      BitOr(d.clockSeq, VariantBits),
      d.node0, d.node1, d.node2 ];
    assert InRange(d) ==> ws[3] == d.timeHi + VersionBits && ws[4] == d.clockSeq + VariantBits by {
      if InRange(d) { MarkersAdd(d); }
    }
    ws
  }

  predicate AllWords(ws: seq<nat>) {
    forall i :: 0 <= i < |ws| ==> ws[i] < 0x10000
  }

  /** The `i`-th four-digit group of a hex text. */
  function Group(s: seq<char>, i: nat): (g: seq<char>)
    requires IsHexText(s) && 4 * i + 4 <= |s|
    ensures |g| == 4 && IsHexText(g)
  {
    var g := s[4 * i..4 * i + 4];
    assert forall j :: 0 <= j < 4 ==> g[j] == s[4 * i + j];
    g
  }

  /** Hex text followed by hex text is hex text. */
  lemma HexConcat(x: seq<char>, y: seq<char>)
    requires IsHexText(x) && IsHexText(y)
    ensures IsHexText(x + y)
  {
    assert forall j :: 0 <= j < |x + y| ==> (x + y)[j] == if j < |x| then x[j] else y[j - |x|];
  }

  /** The first group of a text that starts with a four-digit group is that group. */
  lemma FirstGroupOfConcat(x: seq<char>, rest: seq<char>)
    requires |x| == 4 && IsHexText(x) && IsHexText(rest)
    ensures IsHexText(x + rest)
    ensures Group(x + rest, 0) == x
  {
    HexConcat(x, rest);
    assert (x + rest)[..4] == x;
  }

  /** After a leading four-digit group, the groups are those of the rest. */
  lemma NextGroupOfConcat(x: seq<char>, rest: seq<char>, i: nat)
    requires |x| == 4 && IsHexText(x) && IsHexText(rest)
    requires 4 * i + 4 <= |rest|
    ensures IsHexText(x + rest)
    ensures Group(x + rest, i + 1) == Group(rest, i)
  {
    HexConcat(x, rest);
    assert (x + rest)[4 * (i + 1)..4 * (i + 1) + 4] == rest[4 * i..4 * i + 4];
  }

  /** Every part is a four-digit hex group. */
  predicate AllGroups(parts: seq<seq<char>>) {
    forall i :: 0 <= i < |parts| ==> |parts[i]| == 4 && IsHexText(parts[i])
  }

  /** The parts written one after another. */
  function Concat(parts: seq<seq<char>>): (s: seq<char>)
    requires AllGroups(parts)
    ensures |s| == 4 * |parts|
    ensures IsHexText(s)
  {
    if parts == [] then []
    else
      var rest := Concat(parts[1..]);
      HexConcat(parts[0], rest);
      parts[0] + rest
  }

  /** The `i`-th group of concatenated groups is the `i`-th part. */
  lemma {:induction false} GroupOfConcat(parts: seq<seq<char>>, i: nat)
    requires AllGroups(parts) && i < |parts|
    ensures Group(Concat(parts), i) == parts[i]
    decreases i
  {
    var rest := Concat(parts[1..]);
    assert Concat(parts) == parts[0] + rest;
    if i == 0 {
      FirstGroupOfConcat(parts[0], rest);
    } else {
      GroupOfConcat(parts[1..], i - 1);
      NextGroupOfConcat(parts[0], rest, i - 1);
    }
  }

  /** The `%04x` text of each word. */
  function Texts(ws: seq<nat>): (parts: seq<seq<char>>)
    requires AllWords(ws)
    ensures AllGroups(parts)
  {
    var parts := seq(|ws|, i requires 0 <= i < |ws| => Format04x(ws[i]));
    assert AllGroups(parts) by {
      forall i | 0 <= i < |ws| ensures |parts[i]| == 4 && IsHexText(parts[i]) {
        Format04xRoundTrip(ws[i]);
      }
    }
    parts
  }

  /** `sprintf` with one `%04x` per word and nothing between them. */
  function FormatGroups(ws: seq<nat>): (s: seq<char>)
    requires AllWords(ws)
    ensures |s| == 4 * |ws|
    ensures IsHexText(s)
  {
    Concat(Texts(ws))
  }

  /** The `i`-th group of the printed text is the `%04x` text of the `i`-th word. */
  lemma GroupOfFormat(ws: seq<nat>, i: nat)
    requires AllWords(ws) && i < |ws|
    ensures Group(FormatGroups(ws), i) == Format04x(ws[i])
  {
    GroupOfConcat(Texts(ws), i);
  }

  /** Reads a run of four-digit groups back into their values. */
  function Groups(s: seq<char>): (ws: seq<nat>)
    requires |s| % 4 == 0 && IsHexText(s)
    ensures |ws| == |s| / 4
    ensures AllWords(ws)
  {
    var ws := seq(|s| / 4, i requires 0 <= i < |s| / 4 => Value(Group(s, i)));
    assert AllWords(ws) by {
      forall i | 0 <= i < |ws| ensures ws[i] < 0x10000 {
        ValueRoundTrip(Group(s, i));
      }
    }
    ws
  }

  /**
    Printing words and reading the groups back gives the words;
    `FormatOfGroups` is the other direction.
   */
  lemma GroupsOfFormat(ws: seq<nat>)
    requires AllWords(ws)
    ensures Groups(FormatGroups(ws)) == ws
  {
    var s := FormatGroups(ws);
    var g := Groups(s);
    forall i | 0 <= i < |ws| ensures g[i] == ws[i] {
      GroupOfFormat(ws, i);
      Format04xRoundTrip(ws[i]);
    }
  }

  /** Index `i` of a text of `n` groups lies in group `i / 4`. */
  lemma GroupOfIndex(i: nat, n: nat)
    requires i < 4 * n
    ensures 4 * (i / 4) <= i < 4 * (i / 4) + 4 <= 4 * n
  {
  }

  /** Two hex texts with the same groups are the same text. */
  lemma EqualByGroups(s: seq<char>, t: seq<char>)
    requires |s| == |t| && |s| % 4 == 0 && IsHexText(s) && IsHexText(t)
    requires forall j :: 0 <= j < |s| / 4 ==> Group(s, j) == Group(t, j)
    ensures s == t
  {
    forall i | 0 <= i < |s| ensures s[i] == t[i] {
      var j := i / 4;
      GroupOfIndex(i, |s| / 4);
      assert s[i] == Group(s, j)[i - 4 * j];
      assert t[i] == Group(t, j)[i - 4 * j];
    }
  }

  /** Reading a group text and printing the values gives the text back. */
  lemma FormatOfGroups(s: seq<char>)
    requires |s| % 4 == 0 && IsHexText(s)
    ensures FormatGroups(Groups(s)) == s
  {
    var g := Groups(s);
    var t := FormatGroups(g);
    forall j | 0 <= j < |s| / 4 ensures Group(t, j) == Group(s, j) {
      GroupOfFormat(g, j);
      ValueRoundTrip(Group(s, j));
    }
    EqualByGroups(t, s);
  }

  /** The shape every generated identifier has. */
  predicate IsUuidText(s: seq<char>) {
    && |s| == 32
    && IsHexText(s)
    && s[12] == '4'
    && s[16] in {'8', '9', 'a', 'b'}
  }

  /** The fourth and fifth words carry the version and variant markers in their top bits. */
  lemma MarkedWords(d: Draws)
    requires InRange(d)
    ensures AllWords(Words(d))
    ensures 0x4000 <= Words(d)[3] <= 0x4fff
    ensures 0x8000 <= Words(d)[4] <= 0xbfff
  {
    MarkersAdd(d);
  }

  /** The digits of the top nibbles `10xx` that the variant marker allows. */
  lemma VariantDigit(top: nat)
    requires 8 <= top <= 11
    ensures DigitChar(top) in {'8', '9', 'a', 'b'}
  {
    if top == 8 {
      assert DigitChar(top) == '8';
    } else if top == 9 {
      assert DigitChar(top) == '9';
    } else if top == 10 {
      assert DigitChar(top) == 'a';
    } else {
      assert DigitChar(top) == 'b';
    }
  }

  /** Eight words whose fourth and fifth carry the markers print in the identifier shape. */
  lemma ShapeOfMarkedWords(ws: seq<nat>)
    requires |ws| == 8 && AllWords(ws)
    requires 0x4000 <= ws[3] <= 0x4fff && 0x8000 <= ws[4] <= 0xbfff
    ensures IsUuidText(FormatGroups(ws))
  {
    var s := FormatGroups(ws);
    assert s[12] == '4' by {
      FirstDigitOfGroup(ws, 3);
      assert ws[3] / 0x1000 == 4;
      assert DigitChar(4) == '4';
    }
    assert s[16] in {'8', '9', 'a', 'b'} by {
      FirstDigitOfGroup(ws, 4);
      VariantDigit(ws[4] / 0x1000);
    }
  }

  /** The first character of each group is the top nibble of its word. */
  lemma FirstDigitOfGroup(ws: seq<nat>, i: nat)
    requires AllWords(ws) && i < |ws|
    ensures FormatGroups(ws)[4 * i] == DigitChar(ws[i] / 0x1000)
  {
    var s := FormatGroups(ws);
    assert s[4 * i] == Group(s, i)[0];
    GroupOfFormat(ws, i);
    FirstDigit(ws[i]);
  }

  /** `uuid()`: 32 lowercase hex digits, version digit `4`, variant digit `8`-`b`. */
  function Uuid(d: Draws): (s: string)
    requires InRange(d)
    ensures IsUuidText(s)
  {
    MarkedWords(d);
    ShapeOfMarkedWords(Words(d));
    FormatGroups(Words(d))
  }

  /** The version and variant digits put the fourth and fifth groups in the marked ranges. */
  lemma MarkedGroups(s: string)
    requires IsUuidText(s)
    ensures 0x4000 <= Groups(s)[3] <= 0x4fff
    ensures 0x8000 <= Groups(s)[4] <= 0xbfff
  {
    ValueOfFour(Group(s, 3));
    ValueOfFour(Group(s, 4));
    assert Group(s, 3)[0] == s[12] && Group(s, 4)[0] == s[16];
  }

  /** The draws whose words are `g`, undoing the version and variant markers. */
  function Unmark(g: seq<nat>): (d: Draws)
    requires |g| == 8 && g[3] >= VersionBits && g[4] >= VariantBits
  {
    Draws(g[0], g[1], g[2], g[3] - VersionBits, g[4] - VariantBits, g[5], g[6], g[7])
  }

  /** Unmarking marked words gives draws in range that print as those words. */
  lemma UnmarkWords(g: seq<nat>)
    requires |g| == 8 && AllWords(g)
    requires 0x4000 <= g[3] <= 0x4fff && 0x8000 <= g[4] <= 0xbfff
    ensures InRange(Unmark(g))
    ensures Words(Unmark(g)) == g
  {
    var d := Unmark(g);
    MarkersAdd(d);
  }

  /** Recovers the draws from an identifier text. */
  function Decode(s: string): (d: Draws)
    requires IsUuidText(s)
    ensures InRange(d)
    ensures Uuid(d) == s
  {
    MarkedGroups(s);
    UnmarkWords(Groups(s));
    FormatOfGroups(s);
    var d := Unmark(Groups(s));
    assert Uuid(d) == FormatGroups(Words(d));
    d
  }

  /** Decoding a generated identifier yields the draws it was made from. */
  lemma DecodeUuid(d: Draws)
    requires InRange(d)
    ensures Decode(Uuid(d)) == d
  {
    MarkedWords(d);
    MarkersAdd(d);
    assert Uuid(d) == FormatGroups(Words(d));
    GroupsOfFormat(Words(d));
  }

  /**
    Different draws give different identifiers: `uuid()` collides exactly
    when `mt_rand` repeats all eight draws.
   */
  lemma UuidInjective(d1: Draws, d2: Draws)
    requires InRange(d1) && InRange(d2)
    ensures Uuid(d1) == Uuid(d2) <==> d1 == d2
  {
    if Uuid(d1) == Uuid(d2) {
      DecodeUuid(d1);
      DecodeUuid(d2);
    }
  }

  /** Every text of the identifier shape is some generated identifier. */
  lemma UuidOnto(s: string)
    requires IsUuidText(s)
    ensures exists d :: InRange(d) && Uuid(d) == s
  {
    var d := Decode(s);
    assert InRange(d) && Uuid(d) == s;
  }
}
