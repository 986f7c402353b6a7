/** The two pieces of java.lang string behaviour the screens rely on:
    `String.trim()` and the decimal rendering of a non-negative `int`
    when it is concatenated onto a string. */
module JavaText {

  /** `String.trim()` counts every char whose code is at most U+0020 as space. */
  predicate IsSpace(c: char) {
    c <= ' '
  }

  predicate AllSpace(s: string) {
    forall i :: 0 <= i < |s| ==> IsSpace(s[i])
  }

  /** Neither end of `s` is a space: the shape of every trimmed string. */
  predicate NoEdgeSpace(s: string) {
    s == [] || (!IsSpace(s[0]) && !IsSpace(s[|s| - 1]))
  }

  /** Trim's first loop: from `st`, skip forward over spaces. */
  function SkipLeading(s: string, st: nat): (r: nat)
    requires st <= |s|
    ensures st <= r <= |s|
    ensures forall k :: st <= k < r ==> IsSpace(s[k])
    ensures r == |s| || !IsSpace(s[r])
    decreases |s| - st
  {
    if st < |s| && IsSpace(s[st]) then SkipLeading(s, st + 1) else st
  }

  /** Trim's second loop: from `len`, step back over spaces, never below `st`. */
  function SkipTrailing(s: string, st: nat, len: nat): (r: nat)
    requires st <= len <= |s|
    ensures st <= r <= len
    ensures forall k :: r <= k < len ==> IsSpace(s[k])
    ensures r == st || !IsSpace(s[r - 1])
    decreases len
  {
    if st < len && IsSpace(s[len - 1]) then SkipTrailing(s, st, len - 1) else len
  }

  /** `String.trim()`: skip the spaces at the front, then the spaces at the
      back, and keep what lies between. */
  function Trim(s: string): (r: string)
    ensures |r| <= |s|
    ensures NoEdgeSpace(r)
  {
    var st := SkipLeading(s, 0);
    s[st..SkipTrailing(s, st, |s|)]
  }

  /** Trim only removes spaces, from both ends: `s` is spaces, then the
      trimmed text, then spaces. */
  lemma TrimDecomposes(s: string) returns (lead: string, tail: string)
    ensures s == lead + Trim(s) + tail
    ensures AllSpace(lead) && AllSpace(tail)
  {
    var st := SkipLeading(s, 0);
    var len := SkipTrailing(s, st, |s|);
    lead, tail := s[..st], s[len..];
    assert s == lead + s[st..len] + tail;
  }

  lemma AllSpaceConcat(a: string, b: string)
    requires AllSpace(a) && AllSpace(b)
    ensures AllSpace(a + b)
  {
    forall i | 0 <= i < |a + b| ensures IsSpace((a + b)[i]) {
      if i < |a| { assert (a + b)[i] == a[i]; } else { assert (a + b)[i] == b[i - |a|]; }
    }
  }

  /** The decomposition is unique: whatever spaces surround a string with no
      edge spaces, trim gives that string back. Together with TrimDecomposes
      this pins Trim down completely. */
  lemma TrimUnique(lead: string, r: string, tail: string)
    requires AllSpace(lead) && AllSpace(tail)
    requires NoEdgeSpace(r)
    ensures Trim(lead + r + tail) == r
  {
    var s := lead + r + tail;
    var st := SkipLeading(s, 0);
    var len := SkipTrailing(s, st, |s|);
    if r == [] {
      assert s == lead + tail;
      AllSpaceConcat(lead, tail);
      assert st == |s|;
    } else {
      assert s[|lead|] == r[0];
      assert forall k :: 0 <= k < |lead| ==> s[k] == lead[k];
      assert st == |lead|;
      assert s[|lead| + |r| - 1] == r[|r| - 1];
      assert forall k :: |lead| + |r| <= k < |s| ==> s[k] == tail[k - |lead| - |r|];
      assert len == |lead| + |r|;
      assert s[st..len] == r;
    }
  }

  lemma Regroup(lead: string, a: string, r: string, b: string, tail: string)
    ensures lead + (a + r + b) + tail == (lead + a) + r + (b + tail)
  {
  }

  /** Surrounding spaces never change what trim returns. */
  lemma TrimIgnoresPadding(lead: string, s: string, tail: string)
    requires AllSpace(lead) && AllSpace(tail)
    ensures Trim(lead + s + tail) == Trim(s)
  {
    var a, b := TrimDecomposes(s);
    var r := Trim(s);
    Regroup(lead, a, r, b, tail);
    AllSpaceConcat(lead, a);
    AllSpaceConcat(b, tail);
    TrimUnique(lead + a, r, b + tail);
  }

  /** Trimming twice is trimming once. */
  lemma TrimIdempotent(s: string)
    ensures Trim(Trim(s)) == Trim(s)
  {
    TrimUnique([], Trim(s), []);
    assert [] + Trim(s) + [] == Trim(s);
  }

  predicate IsDigit(c: char) {
    '0' <= c <= '9'
  }

  function DigitChar(d: nat): (c: char)
    requires d < 10
    ensures IsDigit(c)
  {
    "0123456789"[d]
  }

  function DigitValue(c: char): nat
    requires IsDigit(c)
  {
    (c as int) - ('0' as int)
  }

  /** Decimal rendering of a non-negative `int`, as string concatenation
      produces it: digits only, no sign, no leading zero. */
  function NatToString(n: nat): (r: string)
    ensures |r| >= 1
    ensures forall i :: 0 <= i < |r| ==> IsDigit(r[i])
    ensures r[0] == '0' ==> n == 0 && r == "0"
  {
    if n < 10 then [DigitChar(n)] else NatToString(n / 10) + [DigitChar(n % 10)]
  }

  /** Reads a string of digits back as a number (most significant first). */
  function ParseDecimal(s: string): nat
    requires forall i :: 0 <= i < |s| ==> IsDigit(s[i])
  {
    if s == [] then 0 else ParseDecimal(s[..|s| - 1]) * 10 + DigitValue(s[|s| - 1])
  }

  lemma {:induction false} ParseNatToString(n: nat)
    ensures ParseDecimal(NatToString(n)) == n
  {
    var r := NatToString(n);
    if n < 10 {
      assert r[..0] == [];
      assert DigitValue(DigitChar(n)) == n;
    } else {
      var p := NatToString(n / 10);
      assert r == p + [DigitChar(n % 10)];
      assert r[..|r| - 1] == p;
      assert DigitValue(DigitChar(n % 10)) == n % 10;
      ParseNatToString(n / 10);
    }
  }

  /** Different numbers render differently. */
  lemma NatToStringInjective(m: nat, n: nat)
    requires NatToString(m) == NatToString(n)
    ensures m == n
  {
    ParseNatToString(m);
    ParseNatToString(n);
  }
}
