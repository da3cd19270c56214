/** ip6toa of src/inet6.c against a parser for the text forms of section 2.2 of RFC 4291. */
module Ip6Text {
  import opened Bytes

  const IP6TOAMAX: nat := 40

  // --- hexadecimal groups ---

  function Digit(n: nat): char
    requires n < 16
  {
    "0123456789abcdef"[n]
  }

  /** %x: lower-case hexadecimal without leading zeros. */
  function Hex(n: nat): (s: string)
    ensures s != []
  {
    if n < 16 then [Digit(n)] else Hex(n / 16) + [Digit(n % 16)]
  }

  function DigitValue(c: char): Option<nat> {
    if '0' <= c <= '9' then Some(c as int - '0' as int)
    else if 'a' <= c <= 'f' then Some(c as int - 'a' as int + 10)
    else if 'A' <= c <= 'F' then Some(c as int - 'A' as int + 10)
    else None
  }

  function HexValue(s: string): Option<nat> {
    if s == [] then Some(0)
    else
      match (HexValue(s[..|s| - 1]), DigitValue(s[|s| - 1]))
      case (Some(hi), Some(lo)) => Some(16 * hi + lo)
      case _ => None
  }

  /** One to four hexadecimal digits. */
  function ParseGroup(s: string): Option<nat> {
    if 1 <= |s| <= 4 then HexValue(s) else None
  }

  /** %x prints no leading zeros and no capitals. */
  lemma {:induction false} HexIsMinimal(n: nat)
    ensures Hex(n)[0] == '0' ==> n == 0 && Hex(n) == "0"
    ensures forall i :: 0 <= i < |Hex(n)| ==> '0' <= Hex(n)[i] <= '9' || 'a' <= Hex(n)[i] <= 'f'
  {
    if n >= 16 {
      HexIsMinimal(n / 16);
    }
  }

  // --- the parser ---

  /** The pieces between the colons. */
  function Split(s: string): (r: seq<string>)
    ensures r != []
  {
    if s == [] then [[]]
    else
      var r := Split(s[1..]);
      if s[0] == ':' then [[]] + r else [[s[0]] + r[0]] + r[1..]
  }

  function ParsePieces(ps: seq<string>): Option<seq<nat>> {
    if ps == [] then Some([])
    else
      match (ParseGroup(ps[0]), ParsePieces(ps[1..]))
      case (Some(g), Some(gs)) => Some([g] + gs)
      case _ => None
  }

  function ParseGroups(s: string): Option<seq<nat>> {
    if s == [] then Some([]) else ParsePieces(Split(s))
  }

  predicate DoubleAt(s: string, i: int) {
    0 <= i && i + 1 < |s| && s[i] == ':' && s[i + 1] == ':'
  }

  /** The position of the first "::". */
  function FindDouble(s: string): Option<nat> {
    if |s| < 2 then None
    else if DoubleAt(s, 0) then Some(0)
    else
      match FindDouble(s[1..])
      case Some(i) => Some(i + 1)
      case None => None
  }

  function Zeros(n: nat): (z: seq<nat>)
    ensures |z| == n && forall i :: 0 <= i < n ==> z[i] == 0
  {
    seq(n, _ => 0)
  }

  /** Eight groups, or fewer around one "::" that stands for one or more groups of zeros. */
  function ParseAddress(s: string): Option<seq<nat>> {
    match FindDouble(s)
    case None =>
      (match ParseGroups(s)
       case Some(g) => if |g| == 8 then Some(g) else None
       case None => None)
    case Some(i) =>
      if i + 2 > |s| then None
      else
        match (ParseGroups(s[..i]), ParseGroups(s[i + 2..]))
        case (Some(l), Some(r)) => if |l| + |r| < 8 then Some(l + Zeros(8 - |l| - |r|) + r) else None
        case _ => None
  }

  // --- the printer ---

  /** The 16-bit group at byte offset x, in network order. */
  function GroupAt(a: seq<byte>, x: nat): nat
    requires x + 2 <= |a|
  {
    0x100 * a[x] as int + a[x + 1]
  }

  function Groups(a: seq<byte>): (g: seq<nat>)
    requires |a| >= 16
    ensures |g| == 8 && forall i :: 0 <= i < 8 ==> g[i] < 0x1_0000
  {
    seq(8, i requires 0 <= i < 8 => GroupAt(a, 2 * i))
  }

  function Join(g: seq<nat>): string {
    if g == [] then [] else if |g| == 1 then Hex(g[0]) else Hex(g[0]) + ":" + Join(g[1..])
  }

  /** The first group of the first run of zeros, and the first group behind it. */
  function ZeroStart(g: seq<nat>): (i: nat)
    ensures i <= |g| && (forall k :: 0 <= k < i ==> g[k] != 0) && (i < |g| ==> g[i] == 0)
  {
    if g == [] || g[0] == 0 then 0 else 1 + ZeroStart(g[1..])
  }

  function ZeroEnd(g: seq<nat>, i: nat): (j: nat)
    requires i <= |g|
    ensures i <= j <= |g| && (forall k :: i <= k < j ==> g[k] == 0) && (j < |g| ==> g[j] != 0)
    decreases |g| - i
  {
    if i == |g| || g[i] != 0 then i else ZeroEnd(g, i + 1)
  }

  /** The first run of zero groups becomes "::". */
  function Format(g: seq<nat>): string {
    var i := ZeroStart(g);
    if i == |g| then Join(g) else Join(g[..i]) + "::" + Join(g[ZeroEnd(g, i)..])
  }

  // --- hexadecimal round trip ---

  lemma DigitRoundTrip(n: nat)
    requires n < 16
    ensures DigitValue(Digit(n)) == Some(n) && Digit(n) != ':'
  {
  }

  predicate NoColon(s: string) {
    forall i :: 0 <= i < |s| ==> s[i] != ':'
  }

  lemma {:induction false} HexRoundTrip(n: nat)
    ensures HexValue(Hex(n)) == Some(n) && NoColon(Hex(n))
  {
    if n < 16 {
      DigitRoundTrip(n);
      assert Hex(n)[..0] == [];
    } else {
      HexRoundTrip(n / 16);
      DigitRoundTrip(n % 16);
      assert Hex(n)[..|Hex(n)| - 1] == Hex(n / 16);
    }
  }

  lemma HexLength(n: nat)
    requires n < 0x1_0000
    ensures 1 <= |Hex(n)| <= 4
  {
    var a := n / 16;
    var b := a / 16;
    assert a < 0x1000 && b < 0x100 && b / 16 < 16;
    assert |Hex(b / 16)| == 1;
    assert |Hex(b)| <= 2;
    assert |Hex(a)| <= 3;
  }

  lemma GroupRoundTrip(n: nat)
    requires n < 0x1_0000
    ensures ParseGroup(Hex(n)) == Some(n)
  {
    HexLength(n);
    HexRoundTrip(n);
  }

  // --- groups round trip ---

  lemma {:induction false} SplitPiece(p: string, rest: string)
    requires NoColon(p)
    ensures Split(p) == [p]
    ensures Split(p + ":" + rest) == [p] + Split(rest)
  {
    if p == [] {
      assert p + ":" + rest == ":" + rest;
      assert (":" + rest)[1..] == rest;
    } else {
      assert (p + ":" + rest)[1..] == p[1..] + ":" + rest;
      SplitPiece(p[1..], rest);
      assert p == [p[0]] + p[1..];
    }
  }

  predicate Valid(g: seq<nat>) {
    forall i :: 0 <= i < |g| ==> g[i] < 0x1_0000
  }

  lemma PiecesCons(h: string, n: nat, ps: seq<string>, gs: seq<nat>)
    requires ParseGroup(h) == Some(n) && ParsePieces(ps) == Some(gs)
    ensures ParsePieces([h] + ps) == Some([n] + gs)
  {
    assert ([h] + ps)[1..] == ps;
  }

  lemma {:induction false} PiecesRoundTrip(g: seq<nat>)
    requires Valid(g) && g != []
    ensures ParsePieces(Split(Join(g))) == Some(g) && Join(g) != []
  {
    var h := Hex(g[0]);
    HexRoundTrip(g[0]);
    GroupRoundTrip(g[0]);
    if |g| == 1 {
      SplitPiece(h, []);
      PiecesCons(h, g[0], [], []);
      assert [h] + [] == [h] && g == [g[0]] + [];
    } else {
      PiecesRoundTrip(g[1..]);
      SplitPiece(h, Join(g[1..]));
      PiecesCons(h, g[0], Split(Join(g[1..])), g[1..]);
      assert g == [g[0]] + g[1..];
    }
  }

  lemma GroupsRoundTrip(g: seq<nat>)
    requires Valid(g)
    ensures ParseGroups(Join(g)) == Some(g)
  {
    if g != [] {
      PiecesRoundTrip(g);
    }
  }

  // --- where "::" can occur ---

  /** No "::" inside, and no colon at either end. */
  ghost predicate Tidy(s: string) {
    && (forall i :: !DoubleAt(s, i))
    && (s != [] ==> s[0] != ':' && s[|s| - 1] != ':')
  }

  lemma {:induction false} JoinTidy(g: seq<nat>)
    ensures Tidy(Join(g)) && (g != [] ==> Join(g) != [])
  {
    if g != [] {
      HexRoundTrip(g[0]);
      if |g| > 1 {
        JoinTidy(g[1..]);
        TidyJoin(Hex(g[0]), Join(g[1..]));
      }
    }
  }

  lemma TidyJoin(h: string, t: string)
    requires h != [] && NoColon(h) && Tidy(t) && t != []
    ensures Tidy(h + ":" + t)
  {
    var s := h + ":" + t;
    forall i ensures !DoubleAt(s, i) {
      if 0 <= i && i + 1 < |s| {
        if i < |h| {
          assert s[i] == h[i];
        } else if i == |h| {
          assert s[i + 1] == t[0];
        } else {
          assert s[i] == t[i - |h| - 1] && s[i + 1] == t[i - |h|];
          assert !DoubleAt(t, i - |h| - 1);
        }
      }
    }
  }

  ghost predicate OpenEnded(s: string) {
    (forall i :: !DoubleAt(s, i)) && (s != [] ==> s[|s| - 1] != ':')
  }

  lemma {:induction false} FindFirst(l: string, r: string)
    requires OpenEnded(l)
    ensures FindDouble(l) == None
    ensures FindDouble(l + "::" + r) == Some(|l|)
    decreases |l|
  {
    var s := l + "::" + r;
    if l == [] {
      assert s == "::" + r;
    } else {
      assert !DoubleAt(l, 0);
      assert s[1..] == l[1..] + "::" + r;
      forall i ensures !DoubleAt(l[1..], i) {
        assert !DoubleAt(l, i + 1);
      }
      FindFirst(l[1..], r);
    }
  }

  lemma UniqueDouble(l: string, r: string, i: int)
    requires Tidy(l) && Tidy(r)
    ensures DoubleAt(l + "::" + r, i) <==> i == |l|
  {
    var s := l + "::" + r;
    if 0 <= i && i + 1 < |s| {
      if i + 1 < |l| {
        assert s[i] == l[i] && s[i + 1] == l[i + 1];
        assert !DoubleAt(l, i);
      } else if i > |l| + 1 {
        assert s[i] == r[i - |l| - 2] && s[i + 1] == r[i - |l| - 1];
        assert !DoubleAt(r, i - |l| - 2);
      }
    }
  }

  // --- main results ---

  lemma FormatShape(g: seq<nat>) returns (i: nat, j: nat)
    ensures i == ZeroStart(g) && i <= j <= |g| && (i < |g| ==> i < j)
    ensures i < |g| ==> Format(g) == Join(g[..i]) + "::" + Join(g[j..]) && g == g[..i] + Zeros(j - i) + g[j..]
  {
    i := ZeroStart(g);
    j := ZeroEnd(g, i);
    assert g == g[..i] + g[i..j] + g[j..];
    assert g[i..j] == Zeros(j - i);
  }

  lemma ParsePlain(g: seq<nat>)
    requires Valid(g) && |g| == 8
    ensures ParseAddress(Join(g)) == Some(g)
  {
    JoinTidy(g);
    FindFirst(Join(g), []);
    GroupsRoundTrip(g);
  }

  lemma ParseAround(x: string, y: string, l: seq<nat>, z: nat, r: seq<nat>)
    requires Tidy(x) && ParseGroups(x) == Some(l) && ParseGroups(y) == Some(r) && |l| + z + |r| == 8 && z > 0
    ensures ParseAddress(x + "::" + y) == Some(l + Zeros(z) + r)
  {
    FindFirst(x, y);
    var s := x + "::" + y;
    assert s[..|x|] == x && s[|x| + 2..] == y;
    assert 8 - |l| - |r| == z;
  }

  lemma ParseShortened(g: seq<nat>, l: seq<nat>, z: nat, r: seq<nat>, x: string, y: string)
    requires Valid(l) && Valid(r) && |l| + z + |r| == 8 && z > 0 && x == Join(l) && y == Join(r)
    requires g == l + Zeros(z) + r
    ensures ParseAddress(x + "::" + y) == Some(g)
  {
    JoinTidy(l);
    GroupsRoundTrip(l);
    GroupsRoundTrip(r);
    ParseAround(x, y, l, z, r);
  }

  lemma PrintParseText(g: seq<nat>, text: string)
    requires Valid(g) && |g| == 8 && text == Format(g)
    ensures ParseAddress(text) == Some(g)
  {
    var i, j := FormatShape(g);
    if i == |g| {
      ParsePlain(g);
    } else {
      ParseShortened(g, g[..i], j - i, g[j..], Join(g[..i]), Join(g[j..]));
    }
  }

  /** Print/parse round trip: the text of every address parses back to the address. */
  lemma PrintParse(g: seq<nat>)
    requires Valid(g) && |g| == 8
    ensures ParseAddress(Format(g)) == Some(g)
  {
    PrintParseText(g, Format(g));
  }

  /** Printing is injective. */
  lemma PrintInjective(g: seq<nat>, h: seq<nat>)
    requires Valid(g) && Valid(h) && |g| == |h| == 8 && Format(g) == Format(h)
    ensures g == h
  {
    PrintParse(g);
    PrintParse(h);
  }

  /** The text in general: plain groups, or the groups around the whole first run of zeros. */
  lemma WholeRun(g: seq<nat>)
    ensures 0 !in g ==> Format(g) == Join(g)
    ensures 0 in g ==>
              exists i, j :: FirstRun(g, i, j) && Format(g) == Join(g[..i]) + "::" + Join(g[j..])
  {
    var i := ZeroStart(g);
    if i < |g| {
      var j := ZeroEnd(g, i);
      assert FirstRun(g, i, j);
    }
  }

  /** Groups i to j are the first run of zeros, and the whole of it. */
  predicate FirstRun(g: seq<nat>, i: int, j: int) {
    && 0 <= i < j <= |g| && (forall k :: 0 <= k < i ==> g[k] != 0)
    && (forall k :: i <= k < j ==> g[k] == 0) && (j < |g| ==> g[j] != 0)
  }

  /** "::" occurs exactly once if some group is zero, in place of the first such run, and else never. */
  lemma DoubleAtMostOnce(g: seq<nat>, a: int)
    ensures DoubleAt(Format(g), a) <==> 0 in g && a == |Join(g[..ZeroStart(g)])|
  {
    var i, j := FormatShape(g);
    if i == |g| {
      JoinTidy(g);
    } else {
      assert g[i] == 0;
      JoinTidy(g[..i]);
      JoinTidy(g[j..]);
      UniqueDouble(Join(g[..i]), Join(g[j..]), a);
    }
  }

  lemma {:induction false} JoinLength(g: seq<nat>)
    requires Valid(g)
    ensures |Join(g)| <= if g == [] then 0 else 5 * |g| - 1
  {
    if g != [] {
      HexLength(g[0]);
      if |g| > 1 {
        JoinLength(g[1..]);
      }
    }
  }

  /** The text and its NUL fit IP6TOAMAX. */
  lemma FormatFits(g: seq<nat>)
    requires Valid(g) && |g| == 8
    ensures |Format(g)| + 1 <= 40
  {
    var i, j := FormatShape(g);
    JoinLength(g);
    JoinLength(g[..i]);
    JoinLength(g[j..]);
  }

  // --- ip6toa itself ---

  lemma {:induction false} JoinSnoc(l: seq<nat>, e: nat)
    ensures Join(l + [e]) == if l == [] then Hex(e) else Join(l) + ":" + Hex(e)
  {
    if l == [] {
      assert l + [e] == [e];
    } else {
      assert (l + [e])[1..] == l[1..] + [e];
      JoinSnoc(l[1..], e);
      if |l| > 1 {
        assert Hex(l[0]) + ":" + (Join(l[1..]) + ":" + Hex(e)) == Hex(l[0]) + ":" + Join(l[1..]) + ":" + Hex(e);
      }
    }
  }

  /** What printing groups one by one as ":%x", or as "%x:", adds up to. */
  function Led(g: seq<nat>): string {
    if g == [] then [] else Led(g[..|g| - 1]) + ":" + Hex(g[|g| - 1])
  }

  function Trailed(g: seq<nat>): string {
    if g == [] then [] else Trailed(g[..|g| - 1]) + Hex(g[|g| - 1]) + ":"
  }

  lemma {:induction false} LedIsJoin(g: seq<nat>)
    requires g != []
    ensures Led(g) == ":" + Join(g)
  {
    var l, e := g[..|g| - 1], g[|g| - 1];
    assert g == l + [e];
    JoinSnoc(l, e);
    if l != [] {
      LedIsJoin(l);
      assert ":" + Join(l) + ":" + Hex(e) == ":" + (Join(l) + ":" + Hex(e));
    }
  }

  lemma {:induction false} TrailedIsJoin(g: seq<nat>)
    requires g != []
    ensures Trailed(g) == Join(g) + ":"
    ensures Trailed(g[..|g| - 1]) + Hex(g[|g| - 1]) == Join(g)
  {
    var l, e := g[..|g| - 1], g[|g| - 1];
    assert g == l + [e];
    var h := Hex(e);
    JoinSnoc(l, e);
    assert Trailed(g) == Trailed(l) + h + ":";
    if l == [] {
      assert Trailed(l) + h == h;
    } else {
      TrailedIsJoin(l);
    }
  }

  lemma LedSnoc(g: seq<nat>, k: nat, m: nat)
    requires k <= m < |g|
    ensures Led(g[k..m + 1]) == Led(g[k..m]) + ":" + Hex(g[m])
  {
    assert g[k..m + 1][..m - k] == g[k..m];
  }

  lemma TrailedSnoc(g: seq<nat>, m: nat)
    requires m < |g|
    ensures Trailed(g[..m + 1]) == Trailed(g[..m]) + Hex(g[m]) + ":"
  {
    assert g[..m + 1][..m] == g[..m];
  }

  lemma ZeroEndIs(g: seq<nat>, i: nat, j: nat)
    requires i <= j <= |g| && (forall k :: i <= k < j ==> g[k] == 0) && (j < |g| ==> g[j] != 0)
    ensures ZeroEnd(g, i) == j
  {
  }

  lemma ZeroStartIs(g: seq<nat>, i: nat)
    requires i <= |g| && (forall k :: 0 <= k < i ==> g[k] != 0) && (i < |g| ==> g[i] == 0)
    ensures ZeroStart(g) == i
  {
  }

  lemma FormatAround(g: seq<nat>, i: nat, j: nat)
    requires i < j <= |g| && (forall k :: 0 <= k < i ==> g[k] != 0)
    requires (forall k :: i <= k < j ==> g[k] == 0) && (j < |g| ==> g[j] != 0)
    ensures Format(g) == Join(g[..i]) + "::" + Join(g[j..])
  {
    ZeroStartIs(g, i);
    ZeroEndIs(g, i, j);
  }

  /** The text for each place where the source stops printing. */
  lemma LeadingText(g: seq<nat>, j: nat)
    requires 0 < j <= |g| && (forall k :: 0 <= k < j ==> g[k] == 0) && (j < |g| ==> g[j] != 0)
    ensures Format(g) == if j == |g| then "::" else ":" + Led(g[j..])
  {
    FormatAround(g, 0, j);
    assert g[..0] == [];
    if j < |g| {
      LedIsJoin(g[j..]);
      assert ":" + (":" + Join(g[j..])) == "::" + Join(g[j..]);
    }
  }

  lemma MiddleText(g: seq<nat>, i: nat, j: nat)
    requires 0 < i < j <= |g| && (forall k :: 0 <= k < i ==> g[k] != 0)
    requires (forall k :: i <= k < j ==> g[k] == 0) && (j < |g| ==> g[j] != 0)
    ensures Format(g) == if j == |g| then Trailed(g[..i]) + ":" else Trailed(g[..i]) + Led(g[j..])
  {
    FormatAround(g, i, j);
    var l, r := g[..i], g[j..];
    TrailedIsJoin(l);
    if j < |g| {
      LedIsJoin(r);
      TwoColons(Join(l), Join(r));
    } else {
      TwoColons(Join(l), []);
    }
  }

  lemma TwoColons(x: string, y: string)
    ensures x + ":" + (":" + y) == x + "::" + y
    ensures y == [] ==> x + ":" + ":" == x + "::" + y
  {
  }

  lemma PlainText(g: seq<nat>)
    requires g != [] && forall k :: 0 <= k < |g| ==> g[k] != 0
    ensures Format(g) == Trailed(g[..|g| - 1]) + Hex(g[|g| - 1])
  {
    ZeroStartIs(g, |g|);
    TrailedIsJoin(g);
  }

  /** while ((n == 0) && (x < end)): leave the run of zeros from group k0 on. */
  method SkipZeros(a: array<byte>, k0: nat) returns (k: nat)
    requires a.Length >= 18 && k0 <= 8
    ensures k0 <= k <= 8
    ensures forall m :: k0 <= m < k ==> Groups(a[..])[m] == 0
    ensures k < 8 ==> Groups(a[..])[k] != 0
  {
    k := k0;
    var n := GroupAt(a[..], 2 * k);
    while n == 0 && k < 8
      invariant k0 <= k <= 8 && n == GroupAt(a[..], 2 * k)
      invariant forall m :: k0 <= m < k ==> Groups(a[..])[m] == 0
    {
      assert Groups(a[..])[k] == n;
      k := k + 1;
      n := GroupAt(a[..], 2 * k);
    }
  }

  /** while (x < end) print ":%x" */
  method PrintRest(a: array<byte>, k0: nat, out0: string) returns (out: string)
    requires a.Length >= 18 && k0 <= 8
    ensures out == out0 + Led(Groups(a[..])[k0..])
  {
    out := out0;
    var k := k0;
    var n := GroupAt(a[..], 2 * k);
    ghost var g := Groups(a[..]);
    while k < 8
      invariant k0 <= k <= 8 && n == GroupAt(a[..], 2 * k)
      invariant out == out0 + Led(g[k0..k])
    {
      LedSnoc(g, k0, k);
      assert g[k] == n;
      out := out + ":" + Hex(n);
      k := k + 1;
      n := GroupAt(a[..], 2 * k);
    }
    assert g[k0..8] == g[k0..];
  }

  /**
   * ip6toa on the 16 address bytes; like the source it also reads the two bytes behind them.
   * The text is a function of the eight groups alone, fits its buffer and parses back.
   */
  method Ip6toa(a: array<byte>) returns (out: string)
    requires a.Length >= 18
    ensures out == Format(Groups(a[..16])) && |out| + 1 <= 40
    ensures exists g :: ParseAddress(out) == Some(g) && |g| == 8
                        && forall i :: 0 <= i < 8 ==> g[i] == 0x100 * a[2 * i] as int + a[2 * i + 1]
  {
    ghost var g := Groups(a[..]);
    assert g == Groups(a[..16]);
    var k := SkipZeros(a, 0);
    if 16 - 2 * k < 16 {
      LeadingText(g, k);
      if k == 8 {
        out := "::";
      } else {
        out := PrintRest(a, k, ":");
      }
    } else {
      out := PrintFrom(a);
    }
    FormatFits(g);
    PrintParse(g);
    forall i | 0 <= i < 8 ensures g[i] == 0x100 * a[2 * i] as int + a[2 * i + 1] {
      assert g[i] == GroupAt(a[..], 2 * i);
    }
  }

  /** The address does not start with a zero group. */
  method PrintFrom(a: array<byte>) returns (out: string)
    requires a.Length >= 18 && Groups(a[..])[0] != 0
    ensures out == Format(Groups(a[..]))
  {
    ghost var g := Groups(a[..]);
    out := "";
    var k := 0;
    var n := GroupAt(a[..], 0);
    while k < 7
      invariant 0 <= k <= 7 && n == GroupAt(a[..], 2 * k)
      invariant out == Trailed(g[..k])
      invariant forall m :: 0 <= m <= k ==> g[m] != 0
    {
      TrailedSnoc(g, k);
      assert g[k] == n;
      out := out + Hex(n) + ":";
      k := k + 1;
      n := GroupAt(a[..], 2 * k);
      assert g[k] == n;
      if n == 0 {
        out := PrintMiddle(a, k, out);
        return;
      }
    }
    PlainText(g);
    assert g[7] == n;
    out := out + Hex(n);
  }

  /** middle_zeros: the first zero group is k, and everything before it has been printed. */
  method PrintMiddle(a: array<byte>, k: nat, out0: string) returns (out: string)
    requires a.Length >= 18 && 0 < k < 8 && Groups(a[..])[k] == 0
    requires forall m :: 0 <= m < k ==> Groups(a[..])[m] != 0
    requires out0 == Trailed(Groups(a[..])[..k])
    ensures out == Format(Groups(a[..]))
  {
    var j := SkipZeros(a, k);
    MiddleText(Groups(a[..]), k, j);
    if j == 8 {
      return out0 + ":";
    }
    out := PrintRest(a, j, out0);
  }
}
