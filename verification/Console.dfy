/** The chunked, newline-translating console writer of lib/console-printf.c. */
module Console {
  import opened Bytes

  const PCBUFMAX: nat := 126
  const NL: byte := 10
  const CR: byte := 13

  /** char to CHAR16: char is signed. */
  function Widen(c: byte): uint16 {
    if c < 0x80 then c else 0xFF00 + c
  }

  /** What one character becomes: a newline is preceded by a carriage return. */
  function Piece(c: byte): (p: seq<uint16>)
    ensures 1 <= |p| <= 2
  {
    if c == NL then [CR, Widen(c)] else [Widen(c)]
  }

  function Expand(s: seq<byte>): seq<uint16> {
    if s == [] then [] else Piece(s[0]) + Expand(s[1..])
  }

  /** What OutputString shows: the characters up to the first NUL. */
  function UpToNul(s: seq<uint16>): (r: seq<uint16>)
    ensures 0 !in r
  {
    if s == [] || s[0] == 0 then [] else [s[0]] + UpToNul(s[1..])
  }

  /** What has been shown, and what waits in the buffer. */
  datatype Screen = Screen(shown: seq<uint16>, pending: seq<uint16>)

  function Flush(t: Screen): Screen {
    Screen(t.shown + UpToNul(t.pending), [])
  }

  function Feed(t: Screen, c: byte): Screen {
    var u := t.(pending := t.pending + Piece(c));
    if |u.pending| >= PCBUFMAX then Flush(u) else u
  }

  function FeedAll(t: Screen, s: seq<byte>): Screen
    decreases |s|
  {
    if s == [] then t else FeedAll(Feed(t, s[0]), s[1..])
  }

  lemma {:induction false} FeedSnoc(t: Screen, s: seq<byte>, c: byte)
    ensures FeedAll(t, s + [c]) == Feed(FeedAll(t, s), c)
    decreases |s|
  {
    if s == [] {
      assert s + [c] == [c];
    } else {
      assert (s + [c])[0] == s[0] && (s + [c])[1..] == s[1..] + [c];
      FeedSnoc(Feed(t, s[0]), s[1..], c);
    }
  }

  /** _pcstate and the console behind it. */
  class PcState {
    const buf: array<uint16>
    var off: nat
    var shown: seq<uint16>

    ghost predicate Valid()
      reads this
    {
      buf.Length == PCBUFMAX + 2 && off < PCBUFMAX
    }

    ghost function State(): Screen
      reads this, buf
      requires Valid()
    {
      Screen(shown, buf[..off])
    }

    constructor (console: seq<uint16>)
      ensures Valid() && State() == Screen(console, []) && fresh(buf)
    {
      buf := new uint16[PCBUFMAX + 2](_ => 0);
      off, shown := 0, console;
    }

    /** gConOut->OutputString(buf) for the first n slots, terminated by a NUL. */
    method OutputString(n: nat)
      requires n < buf.Length
      modifies this`shown, buf
      ensures shown == old(shown) + UpToNul(old(buf[..n]))
    {
      buf[n] := 0;
      assert buf[..n] == old(buf[..n]);
      shown := shown + UpToNul(buf[..n]);
    }

    /** One turn of the loop of _printf_console_out; every index stays inside the 128 slots. */
    method PutChar(i0: nat, c: byte) returns (i: nat)
      requires buf.Length == PCBUFMAX + 2 && i0 < PCBUFMAX
      modifies this`shown, buf
      ensures i < PCBUFMAX
      ensures Screen(shown, buf[..i]) == Feed(old(Screen(shown, buf[..i0])), c)
    {
      i := i0;
      if c == NL {
        buf[i] := CR;
        i := i + 1;
      }
      buf[i] := Widen(c);
      i := i + 1;
      assert buf[..i] == old(buf[..i0]) + Piece(c);
      if i >= PCBUFMAX {
        OutputString(i);
        i := 0;
      }
    }

    /** _printf_console_out */
    method ConsoleOut(str: seq<byte>)
      requires Valid()
      modifies this, buf
      ensures Valid() && State() == FeedAll(old(State()), str)
    {
      var i := off;
      var n := 0;
      while n < |str|
        invariant 0 <= n <= |str| && 0 <= i < PCBUFMAX && buf.Length == PCBUFMAX + 2
        invariant Screen(shown, buf[..i]) == FeedAll(old(State()), str[..n])
      {
        FeedSnoc(old(State()), str[..n], str[n]);
        assert str[..n + 1] == str[..n] + [str[n]];
        i := PutChar(i, str[n]);
        n := n + 1;
      }
      assert str[..n] == str;
      off := i;
    }

    /** The end of _printf: whatever is left is shown. */
    method Finish()
      requires Valid()
      modifies this, buf
      ensures Valid() && State() == Flush(old(State()))
    {
      if off != 0 {
        OutputString(off);
        off := 0;
      }
    }
  }

  // --- refinement ---

  lemma {:induction false} UpToNulWhole(s: seq<uint16>)
    requires 0 !in s
    ensures UpToNul(s) == s
  {
    if s != [] {
      UpToNulWhole(s[1..]);
    }
  }

  lemma {:induction false} ExpandNul(s: seq<byte>)
    ensures 0 in Expand(s) <==> 0 in s
  {
    if s != [] {
      ExpandNul(s[1..]);
      assert s == [s[0]] + s[1..];
    }
  }

  lemma FeedText(t: Screen, c: byte)
    requires 0 !in t.pending && c != 0
    ensures var u := Feed(t, c);
            0 !in u.pending && u.shown + u.pending == t.shown + t.pending + Piece(c)
  {
    UpToNulWhole(t.pending + Piece(c));
  }

  /** Without NULs nothing is lost: shown plus pending grows by the translated text. */
  lemma {:induction false} FeedAllText(t: Screen, s: seq<byte>)
    requires 0 !in t.pending && 0 !in s
    ensures var u := FeedAll(t, s);
            0 !in u.pending && u.shown + u.pending == t.shown + t.pending + Expand(s)
    decreases |s|
  {
    if s == [] {
      assert t.shown + t.pending + Expand(s) == t.shown + t.pending;
    } else {
      var text := t.shown + t.pending;
      FeedText(t, s[0]);
      FeedAllText(Feed(t, s[0]), s[1..]);
      assert text + (Piece(s[0]) + Expand(s[1..])) == text + Piece(s[0]) + Expand(s[1..]);
    }
  }

  /** The characters as the console gets them, newlines as they are. */
  function WidenAll(s: seq<byte>): seq<uint16> {
    if s == [] then [] else [Widen(s[0])] + WidenAll(s[1..])
  }

  /** Undo the translation: drop each carriage return that stands right before a newline. */
  function Collapse(t: seq<uint16>): seq<uint16> {
    if t == [] then []
    else if |t| >= 2 && t[0] == 13 && t[1] == 10 then Collapse(t[1..])
    else [t[0]] + Collapse(t[1..])
  }

  /** In the translated text every newline follows a carriage return, and nothing else was changed. */
  lemma {:induction false} TranslationIsFaithful(s: seq<byte>)
    ensures forall i :: 0 <= i < |Expand(s)| && Expand(s)[i] == 10 ==> i > 0 && Expand(s)[i - 1] == 13
    ensures Collapse(Expand(s)) == WidenAll(s)
    ensures s != [] ==> Expand(s) != [] && Expand(s)[0] != NL
  {
    if s != [] {
      TranslationIsFaithful(s[1..]);
      var t := Expand(s);
      var r := Expand(s[1..]);
      if s[0] == NL {
        assert t[1..][1..] == r && t[1..] == [NL as uint16] + r;
      } else {
        assert t[1..] == r;
      }
      forall i | 0 <= i < |t| && t[i] == NL ensures i > 0 && t[i - 1] == CR {
        var k := |Piece(s[0])|;
        if i >= k {
          assert t[i] == r[i - k];
        }
      }
    }
  }

  /** Apart from the translation every character is shown as itself; bytes above 127 are sign-extended. */
  lemma {:induction false} ShownAsItself(s: seq<byte>)
    ensures |WidenAll(s)| == |s|
    ensures forall i :: 0 <= i < |s| ==> WidenAll(s)[i] == if s[i] < 128 then s[i] else 65280 + s[i] as int
  {
    if s != [] {
      ShownAsItself(s[1..]);
      assert WidenAll(s)[1..] == WidenAll(s[1..]);
      assert forall i :: 1 <= i < |s| ==> WidenAll(s)[i] == WidenAll(s[1..])[i - 1] && s[i] == s[1..][i - 1];
    }
  }

  /** One call of _printf whose engine hands over the strings one by one. */
  function Printf(console: seq<uint16>, strs: seq<seq<byte>>): seq<uint16> {
    Flush(FeedMany(Screen(console, []), strs)).shown
  }

  function FeedMany(t: Screen, strs: seq<seq<byte>>): Screen
    decreases |strs|
  {
    if strs == [] then t else FeedMany(FeedAll(t, strs[0]), strs[1..])
  }

  function Flatten(strs: seq<seq<byte>>): seq<byte> {
    if strs == [] then [] else strs[0] + Flatten(strs[1..])
  }

  lemma {:induction false} FeedAllConcat(t: Screen, a: seq<byte>, b: seq<byte>)
    ensures FeedAll(t, a + b) == FeedAll(FeedAll(t, a), b)
    decreases |a|
  {
    if a == [] {
      assert a + b == b;
    } else {
      assert (a + b)[0] == a[0] && (a + b)[1..] == a[1..] + b;
      FeedAllConcat(Feed(t, a[0]), a[1..], b);
    }
  }

  /** How the engine splits the text does not matter, NULs or not. */
  lemma {:induction false} SplitIndependence(t: Screen, strs: seq<seq<byte>>)
    ensures FeedMany(t, strs) == FeedAll(t, Flatten(strs))
    decreases |strs|
  {
    if strs != [] {
      SplitIndependence(FeedAll(t, strs[0]), strs[1..]);
      FeedAllConcat(t, strs[0], Flatten(strs[1..]));
    }
  }

  lemma {:induction false} ShownHasNoNul(t: Screen, s: seq<byte>)
    requires 0 !in t.shown
    ensures 0 !in FeedAll(t, s).shown
    decreases |s|
  {
    if s != [] {
      ShownHasNoNul(Feed(t, s[0]), s[1..]);
    }
  }

  /**
   * Console refinement: one _printf adds the whole text, each newline preceded by a carriage
   * return, to what the console shows, exactly when the text holds no NUL.
   */
  lemma ConsoleRefinement(console: seq<uint16>, strs: seq<seq<byte>>)
    requires 0 !in console
    ensures Printf(console, strs) == console + Expand(Flatten(strs)) <==> 0 !in Flatten(strs)
  {
    var s := Flatten(strs);
    var t := Screen(console, []);
    SplitIndependence(t, strs);
    ExpandNul(s);
    if 0 !in s {
      FeedAllText(t, s);
      UpToNulWhole(FeedAll(t, s).pending);
      assert t.shown + t.pending == console;
    } else {
      ShownHasNoNul(t, s);
      assert 0 !in Printf(console, strs);
      assert 0 in console + Expand(s);
    }
  }
}
