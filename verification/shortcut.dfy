/** Shortcut labels: a 32-bit string hash indexing a fixed alphabet
    (Switchow/Program.cs, GetStableStringHashCode, _allShortcutChars and
    GetShortcutChar). */
module Shortcut {
  import opened Windows
  import opened Wrappers

  const TwoTo32: int := 0x1_0000_0000
  const MinInt32: int := -0x8000_0000
  const MaxInt32: int := 0x7FFF_FFFF

  /** The 32-bit two's-complement value of x, as unchecked C# arithmetic
      leaves it. */
  function Wrap32(x: int): (w: int)
    ensures MinInt32 <= w <= MaxInt32
    ensures (x - w) % TwoTo32 == 0
  {
    (x + 0x8000_0000) % TwoTo32 - 0x8000_0000
  }

  /** Wrapping commutes with the hash step: reducing before multiplying
      changes nothing after reduction. */
  lemma WrapStep(x: int, c: int)
    ensures Wrap32(Wrap32(x) * 31 + c) == Wrap32(x * 31 + c)
  {
    var w := Wrap32(x);
    var m := (x - w) / TwoTo32;
    assert x == w + TwoTo32 * m;
    assert x * 31 + c == (w * 31 + c) + TwoTo32 * (31 * m);
    WrapShift(w * 31 + c, 31 * m);
  }

  lemma WrapShift(y: int, m: int)
    ensures Wrap32(y + TwoTo32 * m) == Wrap32(y)
  {
    var a := y + 0x8000_0000;
    var r := a % TwoTo32;
    var q := a / TwoTo32;
    assert a == TwoTo32 * q + r;
    assert a + TwoTo32 * m == TwoTo32 * (q + m) + r;
  }

  /** GetStableStringHashCode: fold `acc * 31 + c` over the text from 23, in
      wrapping 32-bit arithmetic. */
  function StableHash(text: string): (h: int)
    ensures MinInt32 <= h <= MaxInt32
  {
    if |text| == 0 then 23
    else Wrap32(StableHash(text[..|text| - 1]) * 31 + text[|text| - 1] as int)
  }

  /** The same fold in unbounded arithmetic: the polynomial
      23 * 31^n + sum of c_i * 31^(n-1-i). */
  function ExactHash(text: string): int {
    if |text| == 0 then 23
    else ExactHash(text[..|text| - 1]) * 31 + text[|text| - 1] as int
  }

  /** Wrapping after every step gives the exact polynomial reduced once. */
  lemma {:induction false} StableHashIsWrappedExact(text: string)
    ensures StableHash(text) == Wrap32(ExactHash(text))
  {
    if |text| > 0 {
      var prefix := text[..|text| - 1];
      var c := text[|text| - 1] as int;
      StableHashIsWrappedExact(prefix);
      WrapStep(ExactHash(prefix), c);
    }
  }

  /** The characters lo to hi inclusive, in order. */
  function CharRange(lo: char, hi: char): (cs: string)
    requires lo <= hi && hi as int < 0xD800
    ensures |cs| == hi as int - lo as int + 1
    ensures forall i :: 0 <= i < |cs| ==> cs[i] as int == lo as int + i
    decreases hi as int - lo as int
  {
    if lo == hi then [lo]
    else
      var next := (lo as int + 1) as char;
      [lo] + CharRange(next, hi)
  }

  /** _allShortcutChars: a to z, A to Z, then ; [ ] \ and /. */
  function ShortcutAlphabet(): (alphabet: string)
    ensures |alphabet| == 57
  {
    CharRange('a', 'z') + CharRange('A', 'Z') + [';', '[', ']', '\\', '/']
  }

  /** A character is a label exactly when it is an ASCII letter or one of
      the five punctuation marks. */
  predicate IsShortcutSymbol(c: char) {
    ('a' <= c <= 'z') || ('A' <= c <= 'Z') || c in {';', '[', ']', '\\', '/'}
  }

  /** The alphabet has 57 distinct symbols, and they are exactly the
      shortcut symbols. */
  lemma AlphabetShape()
    ensures |ShortcutAlphabet()| == 57
    ensures forall i, j :: 0 <= i < j < |ShortcutAlphabet()| ==> ShortcutAlphabet()[i] != ShortcutAlphabet()[j]
    ensures forall c :: c in ShortcutAlphabet() <==> IsShortcutSymbol(c)
  {
    var lower := CharRange('a', 'z');
    var upper := CharRange('A', 'Z');
    var alphabet := ShortcutAlphabet();
    assert alphabet == lower + upper + [';', '[', ']', '\\', '/'];
    forall i | 0 <= i < |alphabet|
      ensures IsShortcutSymbol(alphabet[i])
      ensures i < 26 ==> alphabet[i] as int == 'a' as int + i
      ensures 26 <= i < 52 ==> alphabet[i] as int == 'A' as int + i - 26
      ensures 52 <= i ==> !('a' <= alphabet[i] <= 'z') && !('A' <= alphabet[i] <= 'Z')
    {
      if i < 26 {
        assert alphabet[i] == lower[i];
      } else if i < 52 {
        assert alphabet[i] == upper[i - 26];
      }
    }
    forall c | IsShortcutSymbol(c)
      ensures c in alphabet
    {
      if 'a' <= c <= 'z' {
        var i := c as int - 'a' as int;
        assert alphabet[i] == lower[i];
      } else if 'A' <= c <= 'Z' {
        var i := c as int - 'A' as int;
        assert alphabet[26 + i] == upper[i];
      } else {
        assert alphabet[52..] == [';', '[', ']', '\\', '/'];
        assert c in alphabet[52..];
      }
    }
  }

  /** GetShortcutChar: the label of an entry, alphabet[|h| % 57] for the hash
      h of its text. Math.Abs raises an overflow exception when h is
      int.MinValue; that case yields None. */
  function ShortcutChar(e: Entry): (shortcut: Option<char>)
    ensures shortcut.Some? <==> StableHash(e.Text()) != MinInt32
    ensures shortcut.Some? ==> IsShortcutSymbol(shortcut.value)
  {
    var h := StableHash(e.Text());
    if h == MinInt32 then None
    else
      var magnitude := if h < 0 then -h else h;
      AlphabetShape();
      Some(ShortcutAlphabet()[magnitude % |ShortcutAlphabet()|])
  }

  /** The overflow is reachable: the text "qwkgaia" (say, file name "qwk" and
      title "gaia") hashes to int.MinValue, so it has no label and the
      lookup faults. The entry is a parameter pinned by `requires` so that
      the literal text is not unfolded character by character. */
  lemma LabelOverflowExample(e: Entry)
    requires e == Entry("qwk", "gaia")
    ensures StableHash(e.Text()) == MinInt32
    ensures ShortcutChar(e) == None
  {
    var t := e.Text();
    assert t == "qwkgaia";
    OverflowingText(t);
  }

  /** The hash of any text spelling q, w, k, g, a, i, a, prefix by prefix. */
  lemma OverflowingText(t: string)
    requires |t| == 7
    requires t[0] == 'q' && t[1] == 'w' && t[2] == 'k' && t[3] == 'g' && t[4] == 'a' && t[5] == 'i' && t[6] == 'a'
    ensures StableHash(t) == MinInt32
  {
    assert StableHash(t[..0]) == 23;
    HashStep(t, 1);
    assert StableHash(t[..1]) == 826;
    HashStep(t, 2);
    assert StableHash(t[..2]) == 25725;
    HashStep(t, 3);
    assert StableHash(t[..3]) == 797582;
    HashStep(t, 4);
    assert StableHash(t[..4]) == 24725145;
    HashStep(t, 5);
    assert StableHash(t[..5]) == 766479592;
    HashStep(t, 6);
    assert StableHash(t[..6]) == -2008936319;
    HashStep(t, 7);
    assert t[..7] == t;
  }

  lemma HashStep(t: string, n: nat)
    requires 0 < n <= |t|
    ensures StableHash(t[..n]) == Wrap32(StableHash(t[..n - 1]) * 31 + t[n - 1] as int)
  {
    assert t[..n][..n - 1] == t[..n - 1];
  }
}
