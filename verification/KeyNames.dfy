/**
 * The text a shared key is cached under: the lossy UTF-8 reading of the remote key, in which every
 * ill-formed piece becomes one U+FFFD (Unicode Standard, section 3.9, substitution of maximal subparts).
 */
module KeyNames {
  import opened Serialization
  import opened Encryption

  const REPLACEMENT := 0xFFFD

  predicate Continues(b: byte) { 0x80 <= b < 0xC0 }

  /** Whether `b` may follow the first byte of a sequence of three or four bytes. */
  predicate Second(first: byte, b: byte) {
    && Continues(b)
    && (first == 0xE0 ==> b >= 0xA0) && (first == 0xED ==> b < 0xA0)
    && (first == 0xF0 ==> b >= 0x90) && (first == 0xF4 ==> b < 0x90)
  }

  /** A byte that stands for nothing on its own and begins nothing. */
  predicate Stray(b: byte) { 0x80 <= b < 0xC2 || b >= 0xF5 }

  predicate IsScalar(c: int) { 0 <= c < 0xD800 || 0xE000 <= c < 0x11_0000 }

  /** A missing byte continues nothing. */
  function At(s: Bytes, i: nat): byte { if i < |s| then s[i] else 0 }

  /** The first character of the text and how many bytes it takes. */
  function First(s: Bytes): (r: (int, nat))
    requires s != []
    ensures 1 <= r.1 <= |s| && IsScalar(r.0)
  {
    var b, b1, b2, b3 := s[0], At(s, 1), At(s, 2), At(s, 3);
    if b < 0x80 then (b, 1)
    else if Stray(b) then (REPLACEMENT, 1)
    else if b < 0xE0 then
      if Continues(b1) then ((b - 0xC0) * 64 + (b1 - 0x80), 2) else (REPLACEMENT, 1)
    else if !Second(b, b1) then (REPLACEMENT, 1)
    else if !Continues(b2) then (REPLACEMENT, 2)
    else if b < 0xF0 then (((b - 0xE0) * 64 + (b1 - 0x80)) * 64 + (b2 - 0x80), 3)
    else if !Continues(b3) then (REPLACEMENT, 3)
    else ((((b - 0xF0) * 64 + (b1 - 0x80)) * 64 + (b2 - 0x80)) * 64 + (b3 - 0x80), 4)
  }

  function LossyName(s: Bytes): string {
    if s == [] then [] else [First(s).0 as char] + LossyName(s[First(s).1..])
  }

  // ------------------------------------------------------- keys that share a name

  predicate AllStray(s: Bytes) {
    forall i :: 0 <= i < |s| ==> Stray(s[i])
  }

  /** Keys of stray bytes only: their name tells nothing but their length. */
  lemma {:induction false} StrayKeysShareName(r: Bytes, s: Bytes)
    requires |r| == |s| && AllStray(r) && AllStray(s)
    ensures LossyName(r) == LossyName(s)
  {
    if r != [] {
      StrayKeysShareName(r[1..], s[1..]);
    }
  }

  /** So from an empty cache two such keys are both looked up right only if they agree on the same shared key. */
  lemma StrayKeysClash(x: Suite, secret: Bytes, r: Bytes, s: Bytes)
    requires x.keyName == LossyName
    requires |r| == |s| && AllStray(r) && AllStray(s)
    ensures LookupsRight(x, secret, [r, s]) <==> x.agree(r, secret) == x.agree(s, secret)
  {
    StrayKeysShareName(r, s);
    LookupsRightExactly(x, secret, [r, s]);
    assert r in [r, s] && s in [r, s];
  }

  function Repeated(b: byte): (r: Bytes)
    ensures |r| == 32 && forall i :: 0 <= i < 32 ==> r[i] == b
  {
    seq(32, _ => b)
  }

  /** There are such keys of the length of a public key. */
  lemma StrayKeysExist()
    ensures exists r: Bytes, s: Bytes ::
              |r| == |s| == 32 && r != s && AllStray(r) && AllStray(s) && LossyName(r) == LossyName(s)
  {
    hide LossyName;
    var r, s := Repeated(0xF8), Repeated(0xF9);
    assert r[0] != s[0];
    StrayKeysShareName(r, s);
  }

  // -------------------------------------------------- keys that are told apart

  /** The UTF-8 form of a character. */
  function Utf8(c: int): Bytes
    requires IsScalar(c)
  {
    if c < 0x80 then [c]
    else if c < 0x800 then [0xC0 + c / 64, 0x80 + c % 64]
    else if c < 0x1_0000 then [0xE0 + c / 64 / 64, 0x80 + c / 64 % 64, 0x80 + c % 64]
    else [0xF0 + c / 64 / 64 / 64, 0x80 + c / 64 / 64 % 64, 0x80 + c / 64 % 64, 0x80 + c % 64]
  }

  lemma Digit(h: int, l: int)
    requires 0 <= l < 64
    ensures (h * 64 + l) / 64 == h && (h * 64 + l) % 64 == l
  {
  }

  lemma TwoDigits(h: byte, l: byte)
    requires 0x2 <= h < 0x20 && l < 64
    ensures Utf8(h * 64 + l) == [0xC0 + h, 0x80 + l]
  {
    Digit(h, l);
  }

  lemma ThreeDigits(h: byte, m: byte, l: byte)
    requires h < 0x10 && m < 64 && l < 64
    requires 0x800 <= (h * 64 + m) * 64 + l && IsScalar((h * 64 + m) * 64 + l)
    ensures Utf8((h * 64 + m) * 64 + l) == [0xE0 + h, 0x80 + m, 0x80 + l]
  {
    Digit(h, m);
    Digit(h * 64 + m, l);
  }

  lemma FourDigits(h: byte, m: byte, n: byte, l: byte)
    requires h < 5 && m < 64 && n < 64 && l < 64
    requires 0x1_0000 <= ((h * 64 + m) * 64 + n) * 64 + l && IsScalar(((h * 64 + m) * 64 + n) * 64 + l)
    ensures Utf8(((h * 64 + m) * 64 + n) * 64 + l) == [0xF0 + h, 0x80 + m, 0x80 + n, 0x80 + l]
  {
    Digit(h, m);
    Digit(h * 64 + m, n);
    Digit((h * 64 + m) * 64 + n, l);
  }

  /** A character that is not a replacement was written in its UTF-8 form. */
  lemma FirstIsUtf8(s: Bytes)
    requires s != [] && First(s).0 != REPLACEMENT
    ensures s[..First(s).1] == Utf8(First(s).0)
  {
    var b, b1, b2, b3 := s[0], At(s, 1) - 0x80, At(s, 2) - 0x80, At(s, 3) - 0x80;
    if First(s).1 == 2 {
      TwoDigits(b - 0xC0, b1);
    } else if First(s).1 == 3 {
      ThreeDigits(b - 0xE0, b1, b2);
    } else if First(s).1 == 4 {
      FourDigits(b - 0xF0, b1, b2, b3);
    }
  }

  /** Keys clash only when something in their name was replaced. */
  lemma {:induction false} UnreplacedNamesDiffer(r: Bytes, s: Bytes)
    requires LossyName(r) == LossyName(s) && (REPLACEMENT as char) !in LossyName(r)
    ensures r == s
  {
    hide First, Utf8;
    if r != [] && s != [] {
      var (c, n) := First(r);
      var (d, m) := First(s);
      assert LossyName(r)[0] == c as char && LossyName(s)[0] == d as char;
      FirstIsUtf8(r);
      FirstIsUtf8(s);
      assert LossyName(r)[1..] == LossyName(r[n..]) && LossyName(s)[1..] == LossyName(s[m..]);
      UnreplacedNamesDiffer(r[n..], s[m..]);
      assert r == r[..n] + r[n..] && s == s[..m] + s[m..];
    }
  }
}
