/** Client addresses: an optional identifier, a dot, and the public key in hexadecimal. */
module Addresses {
  import opened Common
  import opened Serialization

  const PUBLIC_KEY_LEN := 32

  datatype AddressError = NotHex | WrongKeyLength

  // ------------------------------------------------------------ hexadecimal

  type nibble = x: int | 0 <= x < 16

  function HexDigit(n: nibble): char {
    "0123456789abcdef"[n]
  }

  function FromHexDigit(c: char): Option<nibble> {
    if '0' <= c <= '9' then Some(c as int - '0' as int)
    else if 'a' <= c <= 'f' then Some(c as int - 'a' as int + 10)
    else if 'A' <= c <= 'F' then Some(c as int - 'A' as int + 10)
    else None
  }

  function HexEncode(b: Bytes): (s: string)
    ensures |s| == 2 * |b|
    ensures '.' !in s
  {
    if b == [] then [] else [HexDigit(b[0] / 16), HexDigit(b[0] % 16)] + HexEncode(b[1..])
  }

  function HexDecode(s: string): (r: Option<Bytes>)
    ensures r.Some? ==> |s| == 2 * |r.value|
  {
    if s == [] then Some([])
    else if |s| == 1 then None
    else
      var first, rest := HexByte(s[0], s[1]), HexDecode(s[2..]);
      if first.None? || rest.None? then None else Some([first.value] + rest.value)
  }

  lemma HexDigitRoundTrip(n: nibble)
    ensures FromHexDigit(HexDigit(n)) == Some(n)
  {
  }

  /** The value of two digits. */
  function HexByte(hi: char, lo: char): Option<byte> {
    var h, l := FromHexDigit(hi), FromHexDigit(lo);
    if h.None? || l.None? then None else Some(h.value * 16 + l.value)
  }

  lemma HexByteRoundTrip(b: byte)
    ensures HexByte(HexDigit(b / 16), HexDigit(b % 16)) == Some(b)
  {
    HexDigitRoundTrip(b / 16);
    HexDigitRoundTrip(b % 16);
  }

  lemma {:induction false} HexRoundTrip(b: Bytes)
    ensures HexDecode(HexEncode(b)) == Some(b)
  {
    if b != [] {
      HexByteRoundTrip(b[0]);
      HexRoundTrip(b[1..]);
      assert HexEncode(b)[2..] == HexEncode(b[1..]);
      assert [b[0]] + b[1..] == b;
    }
  }

  /** Both cases of a digit have its value, and nothing else is a digit. */
  lemma DigitMeans(c: char, n: nibble)
    ensures FromHexDigit(c) == Some(n) <==> c == "0123456789abcdef"[n] || c == "0123456789ABCDEF"[n]
  {
  }

  predicate AllHex(s: string) {
    forall i :: 0 <= i < |s| ==> FromHexDigit(s[i]).Some?
  }

  /** Exactly what decodes: digits in pairs, the first of a pair counting 16 times. */
  lemma {:induction false} HexDecodeExactly(s: string)
    ensures HexDecode(s).Some? <==> |s| % 2 == 0 && AllHex(s)
    ensures HexDecode(s).Some? ==>
              forall i :: 0 <= i < |HexDecode(s).value| ==>
                FromHexDigit(s[2 * i]).Some? && FromHexDigit(s[2 * i + 1]).Some?
                && HexDecode(s).value[i] == 16 * FromHexDigit(s[2 * i]).value + FromHexDigit(s[2 * i + 1]).value
  {
    if |s| > 1 {
      var t := s[2..];
      HexDecodeExactly(t);
      assert forall i :: 0 <= i < |t| ==> t[i] == s[i + 2];
      if AllHex(s) {
        forall i | 0 <= i < |t|
          ensures FromHexDigit(t[i]).Some?
        {
          assert t[i] == s[i + 2];
        }
      }
      if HexDecode(s).Some? {
        forall i | 0 <= i < |s|
          ensures FromHexDigit(s[i]).Some?
        {
          if i >= 2 {
            assert s[i] == t[i - 2];
          }
        }
        var r := HexDecode(s).value;
        forall i | 0 <= i < |r|
          ensures r[i] == 16 * FromHexDigit(s[2 * i]).value + FromHexDigit(s[2 * i + 1]).value
        {
          if i > 0 {
            assert r[i] == HexDecode(t).value[i - 1];
            assert s[2 * i] == t[2 * (i - 1)] && s[2 * i + 1] == t[2 * (i - 1) + 1];
          }
        }
      }
    }
  }

  function UpperCase(s: string): string {
    seq(|s|, i requires 0 <= i < |s| => if 'a' <= s[i] <= 'z' then s[i] - 'a' + 'A' else s[i])
  }

  lemma {:induction false} HexIgnoresCase(s: string)
    ensures HexDecode(UpperCase(s)) == HexDecode(s)
  {
    if |s| > 1 {
      HexIgnoresCase(s[2..]);
      assert UpperCase(s)[2..] == UpperCase(s[2..]);
    } else if |s| == 1 {
      assert |UpperCase(s)| == 1;
    } else {
      assert UpperCase(s) == [];
    }
  }

  /** Every byte is written as two lower-case digits, the higher one first. */
  lemma {:induction false} HexEncodeMeans(b: Bytes, i: nat)
    requires i < |b|
    ensures HexEncode(b)[2 * i] == "0123456789abcdef"[b[i] / 16]
    ensures HexEncode(b)[2 * i + 1] == "0123456789abcdef"[b[i] % 16]
  {
    if i > 0 {
      HexEncodeMeans(b[1..], i - 1);
    }
  }

  // ----------------------------------------------------------- dotted names

  function SplitDots(s: string): (r: seq<string>)
    ensures |r| > 0
  {
    if s == [] then [""]
    else
      var r := SplitDots(s[1..]);
      if s[0] == '.' then [""] + r else [[s[0]] + r[0]] + r[1..]
  }

  function Join(parts: seq<string>): string {
    if parts == [] then ""
    else if |parts| == 1 then parts[0]
    else parts[0] + "." + Join(parts[1..])
  }

  lemma {:induction false} JoinUndoesSplit(s: string)
    ensures Join(SplitDots(s)) == s
  {
    if s != [] {
      JoinUndoesSplit(s[1..]);
      var r := SplitDots(s[1..]);
      if s[0] == '.' {
        assert ([""] + r)[1..] == r;
        assert "" + "." + s[1..] == s;
      } else if |r| > 1 {
        assert ([[s[0]] + r[0]] + r[1..])[1..] == r[1..];
        assert [s[0]] + r[0] + "." + Join(r[1..]) == [s[0]] + (r[0] + "." + Join(r[1..]));
      }
    }
  }

  lemma {:induction false} SplitWithoutDots(s: string)
    requires '.' !in s
    ensures SplitDots(s) == [s]
  {
    if s != [] {
      assert s[0] in s && forall c :: c in s[1..] ==> c in s;
      SplitWithoutDots(s[1..]);
      assert [s[0]] + s[1..] == s;
    }
  }

  lemma {:induction false} SplitAtLastDot(a: string, b: string)
    requires '.' !in b
    ensures SplitDots(a + "." + b) == SplitDots(a) + [b]
  {
    var s := a + "." + b;
    if a == [] {
      SplitWithoutDots(b);
      assert s[1..] == b;
    } else {
      SplitAtLastDot(a[1..], b);
      assert s[1..] == a[1..] + "." + b;
    }
  }

  lemma {:induction false} JoinSnoc(parts: seq<string>, p: string)
    requires parts != []
    ensures Join(parts + [p]) == Join(parts) + "." + p
  {
    if |parts| > 1 {
      JoinSnoc(parts[1..], p);
      assert (parts + [p])[1..] == parts[1..] + [p];
      assert parts[0] + "." + (Join(parts[1..]) + "." + p) == parts[0] + "." + Join(parts[1..]) + "." + p;
    }
  }

  // -------------------------------------------------------------- addresses

  function MakeAddress(publicKey: Bytes, identifier: string): string {
    var key := HexEncode(publicKey);
    if identifier == "" then key else identifier + "." + key
  }

  function LastPart(address: string): string {
    var parts := SplitDots(address);
    parts[|parts| - 1]
  }

  function ParseAddress(address: string): Result<(Bytes, string), AddressError> {
    var parts := SplitDots(address);
    var key := HexDecode(parts[|parts| - 1]);
    if key.None? then Err(NotHex)
    else if |key.value| != PUBLIC_KEY_LEN then Err(WrongKeyLength)
    else Ok((key.value, Join(parts[..|parts| - 1])))
  }

  /** Parsing undoes building, for every key and every identifier, dotted or empty. */
  lemma ParseUndoesMake(publicKey: Bytes, identifier: string)
    requires |publicKey| == PUBLIC_KEY_LEN
    ensures ParseAddress(MakeAddress(publicKey, identifier)) == Ok((publicKey, identifier))
  {
    var key := HexEncode(publicKey);
    HexRoundTrip(publicKey);
    if identifier == "" {
      SplitWithoutDots(key);
    } else {
      SplitAtLastDot(identifier, key);
      JoinUndoesSplit(identifier);
      var parts := SplitDots(identifier) + [key];
      assert parts[..|parts| - 1] == SplitDots(identifier);
    }
  }

  /** An address is its last part, behind its identifier and a dot if it has a dot. */
  lemma AddressShape(address: string)
    ensures var parts := SplitDots(address);
            var identifier := Join(parts[..|parts| - 1]);
            if |parts| == 1 then address == LastPart(address) && identifier == ""
            else address == identifier + "." + LastPart(address)
  {
    var parts := SplitDots(address);
    var n := |parts| - 1;
    JoinUndoesSplit(address);
    if n > 0 {
      assert parts == parts[..n] + [parts[n]];
      JoinSnoc(parts[..n], parts[n]);
    }
  }

  lemma {:induction false} PartsHaveNoDots(s: string, k: nat)
    requires k < |SplitDots(s)|
    ensures '.' !in SplitDots(s)[k]
    decreases |s|
  {
    if s != [] {
      var r := SplitDots(s[1..]);
      if k > 0 {
        PartsHaveNoDots(s[1..], if s[0] == '.' then k - 1 else k);
        assert SplitDots(s)[k] == if s[0] == '.' then r[k - 1] else r[k];
      } else if s[0] != '.' {
        PartsHaveNoDots(s[1..], 0);
        assert SplitDots(s)[0] == [s[0]] + r[0];
      }
    }
  }

  /** The key text is what follows the last dot: it has no dot, and is the whole address or follows one. */
  lemma LastPartExactly(address: string, key: string)
    ensures LastPart(address) == key <==>
              '.' !in key && (address == key || exists identifier :: address == identifier + "." + key)
  {
    AddressShape(address);
    PartsHaveNoDots(address, |SplitDots(address)| - 1);
    if '.' !in key {
      if address == key {
        SplitWithoutDots(key);
      }
      if identifier :| address == identifier + "." + key {
        SplitAtLastDot(identifier, key);
      }
    }
  }

  /** Whether an address ends in 64 hexadecimal digits, alone or after a dot. */
  predicate EndsInKey(address: string) {
    var n := |address| - 64;
    n >= 0 && AllHex(address[n..]) && (n > 0 ==> address[n - 1] == '.')
  }

  lemma HexHasNoDot(s: string)
    requires AllHex(s)
    ensures '.' !in s
  {
  }

  /** Exactly which addresses parse, and into what: the key's bytes, and the text before the dot. */
  lemma ParsesExactly(address: string)
    ensures ParseAddress(address).Ok? <==> EndsInKey(address)
    ensures ParseAddress(address).Ok? ==>
              var n := |address| - 64;
              && n >= 0
              && HexDecode(address[n..]) == Some(ParseAddress(address).value.0)
              && ParseAddress(address).value.1 == if n == 0 then "" else address[..n - 1]
    ensures ParseAddress(address) == Err(NotHex) <==> |LastPart(address)| % 2 == 1 || !AllHex(LastPart(address))
  {
    var last, n := LastPart(address), |address| - 64;
    AddressShape(address);
    HexDecodeExactly(last);
    LastPartExactly(address, last);
    if n >= 0 && EndsInKey(address) {
      var key := address[n..];
      HexHasNoDot(key);
      if n > 0 {
        assert address == address[..n - 1] + "." + key;
      }
      LastPartExactly(address, key);
    }
    hide SplitDots, HexDecode, Join, AllHex;
    if ParseAddress(address).Ok? {
      assert address[n..] == last;
    }
  }

  /** The key may be written in either case. */
  lemma ParsingIgnoresCase(identifier: string, key: string)
    requires '.' !in key
    ensures ParseAddress(identifier + "." + UpperCase(key)) == ParseAddress(identifier + "." + key)
    ensures ParseAddress(UpperCase(key)) == ParseAddress(key)
  {
    var upper := UpperCase(key);
    assert '.' !in upper;
    HexIgnoresCase(key);
    SplitAtLastDot(identifier, key);
    SplitAtLastDot(identifier, upper);
    SplitWithoutDots(key);
    SplitWithoutDots(upper);
    var p := SplitDots(identifier);
    assert (p + [key])[..|p|] == (p + [upper])[..|p|];
  }

  lemma RebuiltExactly(dotted: bool, identifier: string, last: string, key: string)
    requires |last| == |key| && (!dotted ==> identifier == "")
    ensures var address := if dotted then identifier + "." + last else last;
            (if identifier == "" then key else identifier + "." + key) == address
            <==> last == key && (identifier == "" ==> |address| == |key|)
  {
    assert (identifier + "." + last)[|identifier| + 1..] == last;
    assert (identifier + "." + key)[|identifier| + 1..] == key;
  }

  /** Building undoes parsing exactly for lower-case keys without a bare leading dot. */
  lemma MakeUndoesParse(address: string)
    requires ParseAddress(address).Ok?
    ensures var (key, identifier) := ParseAddress(address).value;
            MakeAddress(key, identifier) == address
            <==> LastPart(address) == HexEncode(key) && (identifier == "" ==> |address| == 2 * PUBLIC_KEY_LEN)
  {
    hide SplitDots, HexDecode, Join;
    var (key, identifier) := ParseAddress(address).value;
    AddressShape(address);
    RebuiltExactly(|SplitDots(address)| > 1, identifier, LastPart(address), HexEncode(key));
  }

  // ---------------------------------------------------- sub-client prefixes

  function Decimal(n: nat): (s: string)
    ensures s != [] && forall k :: 0 <= k < |s| ==> '0' <= s[k] <= '9'
  {
    var digit := ['0' + (n % 10) as char];
    if n < 10 then digit else Decimal(n / 10) + digit
  }

  lemma {:induction false} DecimalIsInjective(m: nat, n: nat)
    requires Decimal(m) == Decimal(n)
    ensures m == n
    decreases m
  {
    var s := Decimal(m);
    var k := |s| - 1;
    assert s[k] == '0' + (m % 10) as char == '0' + (n % 10) as char;
    assert m % 10 == n % 10;
    if m >= 10 && n >= 10 {
      assert s[..k] == Decimal(m / 10) == Decimal(n / 10);
      DecimalIsInjective(m / 10, n / 10);
    }
  }

  function DecimalValue(s: string): nat
    requires forall k :: 0 <= k < |s| ==> '0' <= s[k] <= '9'
  {
    if s == [] then 0 else DecimalValue(s[..|s| - 1]) * 10 + (s[|s| - 1] as int - '0' as int)
  }

  /** A number's digits, the most significant first and without leading zeros. */
  lemma {:induction false} DecimalMeans(n: nat)
    ensures DecimalValue(Decimal(n)) == n
    ensures n > 0 ==> Decimal(n)[0] != '0'
    decreases n
  {
    var s := Decimal(n);
    var k := |s| - 1;
    assert s[k] as int - '0' as int == n % 10;
    if n >= 10 {
      DecimalMeans(n / 10);
      assert s[..k] == Decimal(n / 10);
    } else {
      assert s[..k] == [];
    }
  }

  /** The text of a prefixed address. */
  lemma PrefixText(addr: string, id: int)
    ensures AddIdentifier(addr, id) ==
            if id < 0 then addr else "__" + Decimal(id) + "__" + (if addr == "" then "" else "." + addr)
  {
  }

  function AddIdentifier(addr: string, id: int): string {
    if id < 0 then addr else AddIdentifierPrefix(addr, "__" + Decimal(id) + "__")
  }

  function AddIdentifierPrefix(base: string, prefix: string): string {
    if prefix == "" then base else if base == "" then prefix else prefix + "." + base
  }

  method AddMulticlientPrefix(dests: seq<string>, id: int) returns (r: seq<string>)
    ensures |r| == |dests| && forall k :: 0 <= k < |dests| ==> r[k] == AddIdentifier(dests[k], id)
  {
    r := [];
    for i := 0 to |dests|
      invariant |r| == i && forall k :: 0 <= k < i ==> r[k] == AddIdentifier(dests[k], id)
    {
      r := r + [AddIdentifier(dests[i], id)];
    }
  }

  /** Prefixing then building is building then prefixing. */
  lemma PrefixCommutes(publicKey: Bytes, identifier: string, id: int)
    requires |publicKey| == PUBLIC_KEY_LEN
    ensures MakeAddress(publicKey, AddIdentifier(identifier, id)) == AddIdentifier(MakeAddress(publicKey, identifier), id)
  {
  }

  /** Sub-client `id` sends exactly to the address that the peer's sub-client `id` registers. */
  method SubClientDestinations(peerKey: Bytes, peerIdentifier: string, id: int) returns (sent: seq<string>)
    requires |peerKey| == PUBLIC_KEY_LEN
    ensures sent == [MakeAddress(peerKey, AddIdentifier(peerIdentifier, id))]
    ensures ParseAddress(sent[0]) == Ok((peerKey, AddIdentifier(peerIdentifier, id)))
  {
    sent := AddMulticlientPrefix([MakeAddress(peerKey, peerIdentifier)], id);
    PrefixCommutes(peerKey, peerIdentifier, id);
    ParseUndoesMake(peerKey, AddIdentifier(peerIdentifier, id));
  }

  /** A prefix can be read back: it tells the sub-client and the address apart. */
  lemma PrefixIsInjective(a: string, b: string, i: nat, j: nat)
    ensures AddIdentifier(a, i) == AddIdentifier(b, j) <==> a == b && i == j
    ensures AddIdentifier(a, i) != a
  {
    var s, t := AddIdentifier(a, i), AddIdentifier(b, j);
    var d, e := Decimal(i), Decimal(j);
    PrefixShape(a, i);
    PrefixShape(b, j);
    assert |d| < |e| ==> t[2 + |d|] == e[|d|] != '_';
    assert |e| < |d| ==> s[2 + |e|] == d[|e|] != '_';
    if s == t {
      assert s[2..2 + |d|] == d && t[2..2 + |e|] == e;
      DecimalIsInjective(i, j);
      assert s[4 + |d|..] == t[4 + |e|..];
      assert ("." + a)[1..] == a && ("." + b)[1..] == b;
    }
  }

  lemma PrefixShape(a: string, i: nat)
    ensures var s, d := AddIdentifier(a, i), Decimal(i);
            && |s| >= 4 + |d| && |s| > |a|
            && s[2..2 + |d|] == d && s[2 + |d|] == '_'
            && (forall k :: 0 <= k < |d| ==> s[2 + k] == d[k])
            && s[4 + |d|..] == if a == "" then "" else "." + a
  {
    var s, d := AddIdentifier(a, i), Decimal(i);
    var p := "__" + d + "__";
    assert s == p + if a == "" then "" else "." + a;
    assert |p| == 4 + |d|;
    assert s[..|p|] == p && p[2..2 + |d|] == d;
  }

  /** So sub-clients of one base are told apart, the unprefixed one included. */
  lemma SubClientsDiffer(a: string, i: int, j: int)
    ensures AddIdentifier(a, i) == AddIdentifier(a, j) <==> i == j || (i < 0 && j < 0)
  {
    if i >= 0 && j >= 0 {
      PrefixIsInjective(a, a, i, j);
    } else if i >= 0 {
      PrefixIsInjective(a, a, i, i);
    } else if j >= 0 {
      PrefixIsInjective(a, a, j, j);
    }
  }
}
