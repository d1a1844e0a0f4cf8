/** `decodeURIComponent`, following the Decode operation of ECMA-262
    (section 19.2.6.5) with an empty reserved set: every `%XY` escape is
    decoded, multi-octet escapes must spell one well-formed UTF-8 sequence,
    and anything else makes the call throw a `URIError`. */
module UriDecode {
  import opened Wrappers

  /** JavaScript's `URIError`, thrown on a malformed escape. */
  datatype UriError = UriError

  /** A decoded character and the index just after the escape(s) that spelled it. */
  datatype Decoded = Decoded(c: char, next: nat)

  function HexDigitValue(c: char): (r: Option<nat>)
    ensures r.Some? ==> r.value < 16
    ensures r.Some? <==> ('0' <= c <= '9' || 'a' <= c <= 'f' || 'A' <= c <= 'F')
  {
    if '0' <= c <= '9' then Some(c as int - '0' as int)
    else if 'a' <= c <= 'f' then Some(c as int - 'a' as int + 10)
    else if 'A' <= c <= 'F' then Some(c as int - 'A' as int + 10)
    else None
  }

  /** The octet spelled `%XY` at index `k` of `s`, if one is spelled there. */
  function EscapedOctet(s: string, k: nat): (r: Option<nat>)
    ensures r.Some? ==> k + 3 <= |s| && s[k] == '%' && r.value < 256
    ensures r.Some? ==> HexDigitValue(s[k + 1]).Some? && HexDigitValue(s[k + 2]).Some?
    ensures r.None? && k + 3 <= |s| && s[k] == '%' ==>
              HexDigitValue(s[k + 1]).None? || HexDigitValue(s[k + 2]).None?
  {
    if k + 3 <= |s| && s[k] == '%' then
      var hi :- HexDigitValue(s[k + 1]);
      var lo :- HexDigitValue(s[k + 2]);
      Some(16 * hi + lo)
    else None
  }

  /** The number of leading one bits of an octet, capped at 5 ("more than four"). */
  function LeadingOnes(b: nat): (n: nat)
    requires b < 256
    ensures n <= 5
    ensures n == 0 <==> b < 0x80
  {
    if b < 0x80 then 0
    else if b < 0xC0 then 1
    else if b < 0xE0 then 2
    else if b < 0xF0 then 3
    else if b < 0xF8 then 4
    else 5
  }

  /** The `m` octets spelled by consecutive escapes starting at index `k`. */
  function EscapedOctets(s: string, k: nat, m: nat): (r: Option<seq<nat>>)
    requires k <= |s|
    ensures r.Some? ==> |r.value| == m && k + 3 * m <= |s|
    ensures r.Some? ==> forall i :: 0 <= i < m ==> r.value[i] < 256
    decreases m
  {
    if m == 0 then Some([])
    else
      var b :- EscapedOctet(s, k);
      var rest :- EscapedOctets(s, k + 3, m - 1);
      Some([b] + rest)
  }

  predicate IsScalarValue(cp: int) {
    0 <= cp < 0xD800 || 0xE000 <= cp < 0x11_0000
  }

  /** The code point a multi-octet UTF-8 sequence encodes, if it is well formed:
      continuation octets are `10xxxxxx`, the encoding is the shortest one, and
      the value is a Unicode scalar value (no surrogates, nothing past U+10FFFF). */
  function Utf8CodePoint(o: seq<nat>): (r: Option<nat>)
    requires 2 <= |o| <= 4
    requires forall i :: 0 <= i < |o| ==> o[i] < 256
    ensures r.Some? ==> IsScalarValue(r.value) && r.value >= 0x80
    ensures r.Some? ==> forall i :: 1 <= i < |o| ==> 0x80 <= o[i] < 0xC0
    ensures |o| == 2 && 0xC0 <= o[0] < 0xC2 ==> r.None?
    ensures |o| == 3 && o[0] == 0xE0 && o[1] < 0xA0 ==> r.None?
    ensures |o| == 3 && o[0] == 0xED && o[1] >= 0xA0 ==> r.None?
    ensures |o| == 4 && o[0] == 0xF0 && o[1] < 0x90 ==> r.None?
    ensures |o| == 4 && o[0] == 0xF4 && o[1] >= 0x90 ==> r.None?
  {
    if !(forall i :: 1 <= i < |o| ==> 0x80 <= o[i] < 0xC0) then None
    else
      var cp :=
        if |o| == 2 then (o[0] % 0x20) * 0x40 + o[1] % 0x40
        else if |o| == 3 then ((o[0] % 0x10) * 0x40 + o[1] % 0x40) * 0x40 + o[2] % 0x40
        else (((o[0] % 0x08) * 0x40 + o[1] % 0x40) * 0x40 + o[2] % 0x40) * 0x40 + o[3] % 0x40;
      var least := if |o| == 2 then 0x80 else if |o| == 3 then 0x800 else 0x1_0000;
      if cp < least || !IsScalarValue(cp) then None else Some(cp)
  }

  /** Decodes the escape sequence that starts with the `%` at index `k`. */
  function DecodeEscape(s: string, k: nat): (r: Result<Decoded, UriError>)
    requires k < |s| && s[k] == '%'
    ensures r.Success? ==> k + 3 <= r.value.next <= |s|
    ensures EscapedOctet(s, k).None? ==> r.Failure?
    ensures EscapedOctet(s, k).Some? && EscapedOctet(s, k).value < 0x80 ==>
      r == Success(Decoded(EscapedOctet(s, k).value as char, k + 3))
    ensures EscapedOctet(s, k).Some? && 0x80 <= EscapedOctet(s, k).value < 0xC0 ==> r.Failure?
    ensures EscapedOctet(s, k).Some? && EscapedOctet(s, k).value >= 0xF8 ==> r.Failure?
  {
    match EscapedOctet(s, k)
    case None => Failure(UriError)
    case Some(b) =>
      var n := LeadingOnes(b);
      if n == 0 then Success(Decoded(b as char, k + 3))
      else if n == 1 || n > 4 then Failure(UriError)
      else
        match EscapedOctets(s, k + 3, n - 1)
        case None => Failure(UriError)
        case Some(rest) =>
          match Utf8CodePoint([b] + rest)
          case None => Failure(UriError)
          case Some(cp) => Success(Decoded(cp as char, k + 3 * n))
  }

  /** Decodes `s[k..]`. */
  function DecodeFrom(s: string, k: nat): (r: Result<string, UriError>)
    requires k <= |s|
    ensures r.Success? ==> |r.value| <= |s| - k
    ensures '%' !in s[k..] ==> r == Success(s[k..])
    decreases |s| - k
  {
    if k == |s| then
      assert s[k..] == [];
      Success([])
    else if s[k] != '%' then
      assert s[k..] == [s[k]] + s[k + 1..];
      var rest :- DecodeFrom(s, k + 1);
      Success([s[k]] + rest)
    else
      assert s[k] in s[k..];
      var d :- DecodeEscape(s, k);
      var rest :- DecodeFrom(s, d.next);
      Success([d.c] + rest)
  }

  /** `decodeURIComponent(s)`: the identity on text without `%`, never longer
      than its input, and throwing whenever some `%` does not start two hex digits. */
  function DecodeUriComponent(s: string): (r: Result<string, UriError>)
    ensures '%' !in s ==> r == Success(s)
    ensures r.Success? ==> |r.value| <= |s|
    ensures r.Success? ==> forall k :: 0 <= k < |s| && s[k] == '%' ==> EscapedOctet(s, k).Some?
  {
    assert s[0..] == s;
    DecodedEscapesWellFormed(s);
    DecodeFrom(s, 0)
  }

  /** The `%` signs inside `m` consecutive escapes from index `k` are exactly
      those escapes' own, each followed by two hex digits. */
  lemma {:induction false} EscapedOctetsCover(s: string, k: nat, m: nat)
    requires k <= |s| && EscapedOctets(s, k, m).Some?
    ensures forall q :: k <= q < k + 3 * m && s[q] == '%' ==> EscapedOctet(s, q).Some?
    decreases m
  {
    if m > 0 {
      EscapedOctetsCover(s, k + 3, m - 1);
      assert HexDigitValue(s[k + 1]).Some? && HexDigitValue(s[k + 2]).Some?;
    }
  }

  /** No `%` lacking two hex digits lies inside a successfully decoded escape. */
  lemma EscapeSpan(s: string, k: nat)
    requires k < |s| && s[k] == '%' && DecodeEscape(s, k).Success?
    ensures forall q :: k < q < DecodeEscape(s, k).value.next && s[q] == '%' ==> EscapedOctet(s, q).Some?
  {
    var b := EscapedOctet(s, k).value;
    assert HexDigitValue(s[k + 1]).Some? && HexDigitValue(s[k + 2]).Some?;
    if LeadingOnes(b) > 0 {
      EscapedOctetsCover(s, k + 3, LeadingOnes(b) - 1);
    }
  }

  /** Decoding from any index at or before a `%` that does not start two hex
      digits throws: no decoded escape can swallow that `%`. */
  lemma {:induction false} DecodeFromThrows(s: string, j: nat, k: nat)
    requires j <= k < |s| && s[k] == '%' && EscapedOctet(s, k).None?
    ensures DecodeFrom(s, j).Failure?
    decreases |s| - j
  {
    if j < k {
      if s[j] != '%' {
        DecodeFromThrows(s, j + 1, k);
      } else if DecodeEscape(s, j).Success? {
        EscapeSpan(s, j);
        DecodeFromThrows(s, DecodeEscape(s, j).value.next, k);
      }
    }
  }

  /** A successful decode leaves no malformed `%` anywhere in the text. */
  lemma DecodedEscapesWellFormed(s: string)
    ensures DecodeFrom(s, 0).Success? ==> forall k :: 0 <= k < |s| && s[k] == '%' ==> EscapedOctet(s, k).Some?
  {
    forall k | 0 <= k < |s| && s[k] == '%' && EscapedOctet(s, k).None?
      ensures DecodeFrom(s, 0).Failure?
    {
      DecodeFromThrows(s, 0, k);
    }
  }

  /** Text without `%` passes through unchanged ahead of whatever follows it. */
  lemma {:induction false} DecodePlainPrefix(s: string, j: nat, k: nat)
    requires j <= k <= |s|
    requires '%' !in s[j..k]
    ensures DecodeFrom(s, j).Failure? <==> DecodeFrom(s, k).Failure?
    ensures DecodeFrom(s, j).Success? ==> DecodeFrom(s, j).value == s[j..k] + DecodeFrom(s, k).value
    decreases k - j
  {
    if j < k {
      assert s[j] == s[j..k][0];
      assert s[j + 1..k] == s[j..k][1..];
      DecodePlainPrefix(s, j + 1, k);
      DecodeStep(s, j);
      assert s[j..k] == [s[j]] + s[j + 1..k];
    }
  }

  /** One character other than `%` decodes to itself. */
  lemma DecodeStep(s: string, j: nat)
    requires j < |s| && s[j] != '%'
    ensures DecodeFrom(s, j).Failure? <==> DecodeFrom(s, j + 1).Failure?
    ensures DecodeFrom(s, j).Success? ==> DecodeFrom(s, j).value == [s[j]] + DecodeFrom(s, j + 1).value
  {
  }

  /** Any `%` that does not start two hex digits makes decoding throw, wherever it lies. */
  lemma MalformedEscapeThrows(s: string, k: nat)
    requires k < |s| && s[k] == '%'
    requires k + 3 > |s| || HexDigitValue(s[k + 1]).None? || HexDigitValue(s[k + 2]).None?
    ensures DecodeUriComponent(s).Failure?
  {
    DecodeFromThrows(s, 0, k);
  }

  /** `%41%zz`: a good escape ahead of a bad one does not save the decode. */
  lemma LateMalformedEscapeThrows()
    ensures DecodeUriComponent("%41%zz").Failure?
  {
    MalformedEscapeThrows("%41%zz", 3);
  }

  lemma MultiOctetDecodes()
    ensures DecodeUriComponent("%E6%9D%B1") == Success("\U{6771}")
  {
    var s := "%E6%9D%B1";
    assert EscapedOctet(s, 0) == Some(0xE6);
    assert EscapedOctet(s, 3) == Some(0x9D);
    assert EscapedOctet(s, 6) == Some(0xB1);
    assert EscapedOctets(s, 9, 0).value == [];
    assert EscapedOctets(s, 6, 1).value == [0xB1];
    assert EscapedOctets(s, 3, 2).value == [0x9D, 0xB1];
    assert Utf8CodePoint([0xE6, 0x9D, 0xB1]) == Some(0x6771);
    assert DecodeEscape(s, 0) == Success(Decoded('\U{6771}', 9));
    assert DecodeFrom(s, 9) == Success([]);
    assert DecodeFrom(s, 0).value == ['\U{6771}'];
  }
}
