/**
 `parse_units` of the demo (macos-demo/pq1-demo.c): a typed decimal such as "1,234.56" becomes a
 256-bit number of base units, in 32 bytes multiplied up in place one digit at a time.
 */
module ParseUnits {
  import opened Bytes
  import opened Characters

  datatype Reason = NotANumber | TooManyDecimals | OutOfRange

  datatype Outcome = Parsed(value: nat) | Refused(reason: Reason)

  /** `char t[128]`. */
  const SIZE: nat := 128

  predicate IsSpace(c: char) {
    c == ' ' || c == '\t' || c == '\n' || c == '\U{0B}' || c == '\U{0C}' || c == '\r'
  }

  predicate IsSeparator(c: char) {
    c == ',' || c == '_'
  }

  /** A C string: no NUL inside. */
  predicate CString(s: string) {
    forall i :: 0 <= i < |s| ==> s[i] != '\0'
  }

  // ---------------------------------------------------------------- what the code computes

  function DropLeading(s: string): (t: string)
    ensures |t| <= |s|
    decreases |s|
  {
    if s != [] && IsSpace(s[0]) then DropLeading(s[1..]) else s
  }

  function DropTrailing(s: string): (t: string)
    ensures t <= s
    decreases |s|
  {
    if s != [] && IsSpace(s[|s| - 1]) then DropTrailing(s[..|s| - 1]) else s
  }

  function Bare(s: string): string {
    DropTrailing(DropLeading(s))
  }

  /** What is left of a text in a buffer of `size` characters. */
  function Trimmed(s: string, size: nat): (t: string)
    requires size > 0
    ensures |t| < size
  {
    var t := Bare(s);
    if |t| >= size then t[..size - 1] else t
  }

  function Stripped(s: string): (t: string)
    ensures |t| <= |s|
    decreases |s|
  {
    if s == [] then []
    else
      var n := |s| - 1;
      if IsSeparator(s[n]) then Stripped(s[..n]) else Stripped(s[..n]) + [s[n]]
  }

  /** `strchr(t, '.')`: the first dot, or the length when there is none. */
  function DotAt(t: string): (d: nat)
    ensures d <= |t| && (d < |t| ==> t[d] == '.')
    ensures forall i :: 0 <= i < d ==> t[i] != '.'
    decreases |t|
  {
    if t == [] || t[0] == '.' then 0 else DotAt(t[1..]) + 1
  }

  function Frac(t: string): nat {
    if DotAt(t) < |t| then |t| - DotAt(t) - 1 else 0
  }

  predicate LooksDecimal(t: string) {
    && DotAt(t) + Frac(t) > 0
    && forall i :: 0 <= i < |t| && i != DotAt(t) ==> IsDigit(t[i])
  }

  /** The number after `i` turns of the loop: the dot is skipped and zeros follow the text. */
  function Accumulated(t: string, i: nat): (v: nat)
    requires LooksDecimal(t)
    decreases i
  {
    if i == 0 then 0
    else if i - 1 < |t| && i - 1 == DotAt(t) then Accumulated(t, i - 1)
    else 10 * Accumulated(t, i - 1) + (if i - 1 < |t| then Digit(t[i - 1]) else 0)
  }

  /** The outcome for a result buffer of `width` bytes. */
  function ParseStripped(t: string, decimals: nat, width: nat): Outcome {
    if !LooksDecimal(t) then Refused(NotANumber)
    else if Frac(t) > decimals then Refused(TooManyDecimals)
    else
      var v := Accumulated(t, |t| + (decimals - Frac(t)));
      if v < Pow256(width) then Parsed(v) else Refused(OutOfRange)
  }

  /** What the buffer holds of a text: all of it but the space around it, up to 127 characters. */
  function Kept(text: string): (t: string)
    ensures |Bare(text)| < SIZE ==> t == Bare(text)
    ensures |Bare(text)| >= SIZE ==> t == Bare(text)[..SIZE - 1]
  {
    Trimmed(text, SIZE)
  }

  /** And without the separators. */
  function Digits(text: string): string {
    Stripped(Kept(text))
  }

  function Parse(text: string, decimals: nat): Outcome {
    ParseStripped(Digits(text), decimals, 32)
  }

  // ---------------------------------------------------------------- the code

  /** `t` holds the C string `s`. */
  ghost predicate Holds(t: array<char>, s: string)
    reads t
  {
    |s| < t.Length && t[..|s|] == s && t[|s|] == '\0' && CString(s)
  }

  method SkipSpaces(text: string) returns (s: nat)
    ensures s <= |text| && text[s..] == DropLeading(text)
  {
    s := 0;
    while s < |text| && IsSpace(text[s])
      invariant s <= |text| && DropLeading(text) == DropLeading(text[s..])
    {
      assert text[s..][1..] == text[s + 1..];
      s := s + 1;
    }
  }

  method DropSpaces(u: string) returns (k: nat)
    ensures k <= |u| && u[..k] == DropTrailing(u)
  {
    k := |u|;
    assert u[..k] == u;
    while k > 0 && IsSpace(u[k - 1])
      invariant k <= |u| && DropTrailing(u) == DropTrailing(u[..k])
    {
      assert u[..k][..k - 1] == u[..k - 1];
      k := k - 1;
    }
  }

  /** memcpy and the terminating NUL. */
  method CopyText(out: array<char>, u: string)
    requires |u| < out.Length && CString(u)
    modifies out
    ensures Holds(out, u)
  {
    forall i | 0 <= i < |u| {
      out[i] := u[i];
    }
    out[|u|] := '\0';
  }

  method Trim(out: array<char>, text: string)
    requires out.Length > 0 && CString(text)
    modifies out
    ensures Holds(out, Trimmed(text, out.Length))
  {
    var s := SkipSpaces(text);
    var u := text[s..];
    var k := DropSpaces(u);
    ghost var bare := u[..k];
    if k >= out.Length {
      k := out.Length - 1;
    }
    assert u[..k] == bare[..k];
    CopyText(out, u[..k]);
  }

  /** Separators squeezed out of the buffer, in place. */
  method Strip(t: array<char>, ghost s: string) returns (n: nat)
    requires Holds(t, s)
    modifies t
    ensures n == |Stripped(s)| && Holds(t, Stripped(s))
  {
    n := 0;
    var p := 0;
    while t[p] != '\0'
      invariant n <= p <= |s|
      invariant t[..n] == Stripped(s[..p])
      invariant CString(Stripped(s[..p]))
      invariant forall i :: p <= i < |s| ==> t[i] == s[i]
      invariant t[|s|] == '\0'
      decreases |s| - p
    {
      assert s[..p + 1][..p] == s[..p];
      if !IsSeparator(t[p]) {
        t[n] := t[p];
        n := n + 1;
      }
      p := p + 1;
    }
    assert s[..p] == s;
    t[n] := '\0';
  }

  method FindDot(t: array<char>, n: nat) returns (dot: nat)
    requires n <= t.Length
    ensures dot == DotAt(t[..n])
  {
    dot := 0;
    ghost var s := t[..n];
    while dot < n && t[dot] != '.'
      invariant dot <= n && DotAt(s) == dot + DotAt(s[dot..])
    {
      assert s[dot..][1..] == s[dot + 1..];
      dot := dot + 1;
    }
  }

  method CheckDigits(t: array<char>, n: nat, dot: nat) returns (ok: bool)
    requires n <= t.Length
    ensures ok == forall i :: 0 <= i < n && i != dot ==> IsDigit(t[i])
  {
    ok := true;
    for i := 0 to n
      invariant ok == forall k :: 0 <= k < i && k != dot ==> IsDigit(t[k])
    {
      if !IsDigit(t[i]) && i != dot {
        ok := false;
      }
    }
  }

  method CheckShape(t: array<char>, n: nat) returns (ok: bool, frac: nat)
    requires n <= t.Length
    ensures ok == LooksDecimal(t[..n]) && frac == Frac(t[..n])
  {
    var dot := FindDot(t, n);
    frac := if dot < n then n - dot - 1 else 0;
    ok := CheckDigits(t, n, dot);
    ghost var u := t[..n];
    assert forall i :: 0 <= i < n ==> u[i] == t[i];
    if dot + frac == 0 {
      ok := false;
    }
  }

  lemma {:induction false} FromBEFront(b: Byte, s: Bytes)
    ensures FromBE([b] + s) == b * Pow256(|s|) + FromBE(s)
    decreases |s|
  {
    if s == [] {
      assert [b][..0] == [];
    } else {
      var n := |s| - 1;
      FromBEFront(b, s[..n]);
      assert ([b] + s)[..|s|] == [b] + s[..n];
    }
  }

  /** One byte of the multiplication: what it keeps of the place value `p`. */
  lemma CarryStep(b: Byte, x: nat, carry: nat, p: nat, before: nat, after: nat, digit: nat)
    requires x == b as int * 10 + carry
    requires after + carry * p == 10 * before + digit
    ensures (x % 256) * p + after + (x / 256) * (256 * p) == 10 * (b * p + before) + digit
  {
    assert x == x % 256 + 256 * (x / 256);
    assert x * p == (x % 256) * p + (x / 256) * (256 * p);
    assert x * p == 10 * (b * p) + carry * p;
  }

  /** The inner loop: the number in `out` becomes ten times itself plus `digit`; what does not fit is returned. */
  method TimesTen(out: array<Byte>, digit: nat) returns (carry: nat)
    requires digit <= 9
    modifies out
    ensures carry <= 9
    ensures FromBE(out[..]) + carry * Pow256(out.Length) == 10 * FromBE(old(out[..])) + digit
  {
    ghost var a := out[..];
    carry := digit;
    var j := out.Length;
    while j > 0
      invariant 0 <= j <= out.Length && carry <= 9
      invariant forall i :: 0 <= i < j ==> out[i] == a[i]
      invariant FromBE(out[j..]) + carry * Pow256(out.Length - j) == 10 * FromBE(a[j..]) + digit
    {
      ghost var rest := out[j..];
      j := j - 1;
      var x := out[j] as int * 10 + carry;
      CarryStep(out[j], x, carry, Pow256(|rest|), FromBE(a[j + 1..]), FromBE(rest), digit);
      FromBEFront(a[j], a[j + 1..]);
      FromBEFront(x % 256, rest);
      assert a[j..] == [a[j]] + a[j + 1..];
      out[j] := x % 256;
      assert out[j..] == [x % 256] + rest;
      carry := x / 256;
    }
    assert out[0..] == out[..] && a[0..] == a;
  }

  lemma {:induction false} AccumulatedGrows(t: string, i: nat, k: nat)
    requires LooksDecimal(t) && i <= k
    ensures Accumulated(t, i) <= Accumulated(t, k)
    decreases k
  {
    if i < k {
      AccumulatedGrows(t, i, k - 1);
    }
  }

  /** A carry out of the last byte means that the number has outgrown the buffer. */
  lemma CarryIsOverflow(v: nat, carry: nat, p: nat, next: nat, goal: nat)
    requires v + carry * p == next <= goal && carry > 0
    ensures goal >= p
  {
  }

  method Accumulate(t: array<char>, n: nat, total: nat, out: array<Byte>) returns (fits: bool)
    requires n <= t.Length && LooksDecimal(t[..n]) && n <= total
    modifies out
    ensures fits == (Accumulated(t[..n], total) < Pow256(out.Length))
    ensures fits ==> FromBE(out[..]) == Accumulated(t[..n], total)
  {
    ghost var s := t[..n];
    forall k | 0 <= k < out.Length {
      out[k] := 0;
    }
    ZerosAreZero(out[..]);
    for i := 0 to total
      invariant FromBE(out[..]) == Accumulated(s, i)
      invariant t[..n] == s
    {
      if i < n && t[i] == '.' {
        assert i == DotAt(s);
        continue;
      }
      assert !(i < n && i == DotAt(s));
      var carry := TimesTen(out, if i < n then Digit(t[i]) else 0);
      if carry > 0 {
        AccumulatedGrows(s, i + 1, total);
        CarryIsOverflow(FromBE(out[..]), carry, Pow256(out.Length), Accumulated(s, i + 1), Accumulated(s, total));
        return false;
      }
    }
    FromBEBound(out[..]);
    fits := true;
  }

  lemma {:induction false} ZerosAreZero(z: Bytes)
    requires forall i :: 0 <= i < |z| ==> z[i] == 0
    ensures FromBE(z) == 0
    decreases |z|
  {
    if z != [] {
      ZerosAreZero(z[..|z| - 1]);
    }
  }

  method ParseBuffer(t: array<char>, n: nat, decimals: nat, out: array<Byte>) returns (why: Option<Reason>)
    requires n <= t.Length
    modifies out
    ensures why == None ==> ParseStripped(t[..n], decimals, out.Length) == Parsed(FromBE(out[..]))
    ensures why.Some? ==> ParseStripped(t[..n], decimals, out.Length) == Refused(why.value)
    ensures why.Some? && why.value != OutOfRange ==> out[..] == old(out[..])
  {
    var ok, frac := CheckShape(t, n);
    if !ok {
      return Some(NotANumber);
    }
    if frac > decimals {
      return Some(TooManyDecimals);
    }
    var fits := Accumulate(t, n, n + (decimals - frac), out);
    why := if fits then None else Some(OutOfRange);
  }

  /** None is success; a refusal before the digits are read leaves `out` alone. */
  method ParseUnits(text: string, decimals: nat, out: array<Byte>) returns (why: Option<Reason>)
    requires CString(text) && out.Length == 32
    modifies out
    ensures why == None ==> Parse(text, decimals) == Parsed(FromBE(out[..]))
    ensures why.Some? ==> Parse(text, decimals) == Refused(why.value)
    ensures why.Some? && why.value != OutOfRange ==> out[..] == old(out[..])
  {
    var t := new char[SIZE](_ => '\0');
    Trim(t, text);
    var n := Strip(t, Trimmed(text, SIZE));
    why := ParseBuffer(t, n, decimals, out);
  }

  // ---------------------------------------------------------------- what it means

  /** `t` is the decimal with whole part `w` and fraction `f`. */
  predicate Decimal(t: string, w: string, f: string) {
    && AllDigits(w) && AllDigits(f) && |w| + |f| > 0
    && (t == w + "." + f || (t == w && f == ""))
  }

  function Pow10(n: nat): (p: nat)
    decreases n
  {
    if n == 0 then 1 else 10 * Pow10(n - 1)
  }

  lemma {:induction false} DotIs(t: string, d: nat)
    requires d <= |t| && (d < |t| ==> t[d] == '.')
    requires forall i :: 0 <= i < d ==> t[i] != '.'
    ensures DotAt(t) == d
  {
  }

  /** The shape the code tests for is the decimal notation. */
  lemma DecimalsLookDecimal(t: string, w: string, f: string)
    requires Decimal(t, w, f)
    ensures LooksDecimal(t) && DotAt(t) == |w| && Frac(t) == |f|
  {
    DotIs(t, |w|);
    if t == w + "." + f {
      assert forall i :: |w| < i < |t| ==> t[i] == f[i - |w| - 1];
    }
  }

  lemma LooksDecimalIsDecimal(t: string)
    requires LooksDecimal(t)
    ensures exists w, f :: Decimal(t, w, f)
  {
    var d := DotAt(t);
    if d < |t| {
      assert t == t[..d] + "." + t[d + 1..];
      assert Decimal(t, t[..d], t[d + 1..]);
    } else {
      assert Decimal(t, t, "");
    }
  }

  lemma {:induction false} WholeAccumulates(t: string, i: nat)
    requires LooksDecimal(t) && i <= DotAt(t)
    ensures AllDigits(t[..i]) && Accumulated(t, i) == Value(t[..i])
    decreases i
  {
    if i > 0 {
      WholeAccumulates(t, i - 1);
      assert t[..i][..i - 1] == t[..i - 1];
    }
  }

  lemma {:induction false} FractionAccumulates(t: string, w: string, f: string, k: nat)
    requires t == w + "." + f && Decimal(t, w, f) && k <= |f|
    requires LooksDecimal(t) && DotAt(t) == |w|
    ensures AllDigits(w + f[..k]) && Accumulated(t, |w| + 1 + k) == Value(w + f[..k])
    decreases k
  {
    if k == 0 {
      WholeAccumulates(t, |w|);
      assert t[..|w|] == w + f[..0] == w;
    } else {
      FractionAccumulates(t, w, f, k - 1);
      var s := w + f[..k];
      assert s[..|s| - 1] == w + f[..k - 1];
      assert t[|w| + k] == f[k - 1];
    }
  }

  lemma TimesTenLast(a: nat, p: nat)
    ensures 10 * (a * p) == a * (10 * p)
  {
  }

  lemma {:induction false} PaddingAccumulates(t: string, k: nat)
    requires LooksDecimal(t)
    ensures Accumulated(t, |t| + k) == Accumulated(t, |t|) * Pow10(k)
    decreases k
  {
    if k > 0 {
      PaddingAccumulates(t, k - 1);
      TimesTenLast(Accumulated(t, |t|), Pow10(k - 1));
    }
  }

  lemma DecimalAccumulates(t: string, w: string, f: string)
    requires Decimal(t, w, f)
    ensures LooksDecimal(t) && AllDigits(w + f) && Accumulated(t, |t|) == Value(w + f)
  {
    DecimalsLookDecimal(t, w, f);
    if t == w + "." + f {
      FractionAccumulates(t, w, f, |f|);
      assert f[..|f|] == f;
    } else {
      WholeAccumulates(t, |w|);
      assert t[..|w|] == t == w + f;
    }
  }

  lemma ReadsTheDecimal(t: string, decimals: nat, width: nat, w: string, f: string)
    requires Decimal(t, w, f)
    ensures AllDigits(w + f)
    ensures ParseStripped(t, decimals, width) ==
      if |f| > decimals then Refused(TooManyDecimals)
      else if Value(w + f) * Pow10(decimals - |f|) < Pow256(width) then Parsed(Value(w + f) * Pow10(decimals - |f|))
      else Refused(OutOfRange)
  {
    DecimalsLookDecimal(t, w, f);
    DecimalAccumulates(t, w, f);
    PaddingAccumulates(t, if |f| > decimals then 0 else decimals - |f|);
  }

  // ---------------------------------------------------------------- every text

  /** Space, and the control characters from tab to carriage return. */
  predicate WhiteChar(c: char) {
    c == ' ' || '\U{09}' <= c <= '\U{0D}'
  }

  predicate White(s: string) {
    forall i :: 0 <= i < |s| ==> WhiteChar(s[i])
  }

  lemma WhiteIsSpace(c: char)
    ensures IsSpace(c) <==> WhiteChar(c)
  {
  }

  /** `u` is `t` with commas and underscores put in. */
  predicate Inserted(u: string, t: string)
    decreases u
  {
    if u == "" then t == ""
    else if u[0] == ',' || u[0] == '_' then Inserted(u[1..], t)
    else t != "" && u[0] == t[0] && Inserted(u[1..], t[1..])
  }

  /**
   `text` spells `t`: `t` with separators put in and white space around it. Of a text too long for the
   buffer the first 127 characters count.
   */
  ghost predicate Spells(text: string, lead: string, u: string, more: string, trail: string, t: string) {
    && text == lead + (u + more) + trail && White(lead) && White(trail) && Inserted(u, t)
    && if more == "" then |u| <= 127 else |u| == 127 && !WhiteChar(more[|more| - 1])
  }

  lemma {:induction false} WhiteIsDropped(lead: string, rest: string)
    requires White(lead) && (rest == "" || !WhiteChar(rest[0]))
    ensures DropLeading(lead + rest) == rest
    decreases lead
  {
    if lead == "" {
      assert lead + rest == rest;
    } else {
      WhiteIsDropped(lead[1..], rest);
      assert (lead + rest)[1..] == lead[1..] + rest && (lead + rest)[0] == lead[0];
      WhiteIsSpace(lead[0]);
    }
  }

  lemma {:induction false} WhiteIsCut(rest: string, trail: string)
    requires White(trail) && (rest == "" || !WhiteChar(rest[|rest| - 1]))
    ensures DropTrailing(rest + trail) == rest
    decreases trail
  {
    if trail == "" {
      assert rest + trail == rest;
    } else {
      var n, all := |trail| - 1, rest + trail;
      WhiteIsCut(rest, trail[..n]);
      assert all[..|all| - 1] == rest + trail[..n] && all[|all| - 1] == trail[n];
      WhiteIsSpace(trail[n]);
    }
  }

  lemma {:induction false} StrippedFront(s: string)
    requires s != ""
    ensures Stripped(s) == (if s[0] == ',' || s[0] == '_' then "" else [s[0]]) + Stripped(s[1..])
    decreases |s|
  {
    var n := |s| - 1;
    if n > 0 {
      StrippedFront(s[..n]);
      assert s[..n][1..] == s[1..][..n - 1];
    }
  }

  /** Squeezing is undoing the insertions. */
  lemma {:induction false} InsertedExactly(u: string, t: string)
    ensures Inserted(u, t) <==> Stripped(u) == t
    decreases u
  {
    if u != "" {
      StrippedFront(u);
      if u[0] == ',' || u[0] == '_' {
        InsertedExactly(u[1..], t);
      } else if t != "" {
        InsertedExactly(u[1..], t[1..]);
        assert t == [t[0]] + t[1..];
      }
    }
  }

  /** Digits, and at most one dot: no white space. */
  lemma {:induction false} NotWhite(u: string, t: string, w: string, f: string, i: nat)
    requires Inserted(u, t) && Decimal(t, w, f) && i < |u|
    ensures !WhiteChar(u[i])
  {
    assert forall k :: 0 <= k < |t| ==> IsDigit(t[k]) || t[k] == '.';
    CharacterOf(u, t, i);
  }

  lemma {:induction false} CharacterOf(u: string, t: string, i: nat)
    requires Inserted(u, t) && i < |u|
    ensures u[i] == ',' || u[i] == '_' || u[i] in t
    decreases u
  {
    if i > 0 {
      CharacterOf(u[1..], if u[0] == ',' || u[0] == '_' then t else t[1..], i - 1);
    }
  }

  /** White space around a text that has none at its ends. */
  lemma {:induction false} BareIs(lead: string, bare: string, trail: string)
    requires White(lead) && White(trail)
    requires bare == "" || (!WhiteChar(bare[0]) && !WhiteChar(bare[|bare| - 1]))
    ensures Bare(lead + bare + trail) == bare
  {
    if bare == "" {
      assert lead + bare + trail == lead + trail;
      AllWhite(lead + trail);
    } else {
      assert lead + bare + trail == lead + (bare + trail);
      WhiteIsDropped(lead, bare + trail);
      WhiteIsCut(bare, trail);
    }
  }

  lemma KeptIs(text: string, u: string, more: string)
    requires Bare(text) == u + more && if more == "" then |u| <= 127 else |u| == 127
    ensures Kept(text) == u
  {
    assert (u + more)[..|u|] == u;
    assert more == "" ==> u + more == u;
  }

  lemma {:induction false} DigitsOfSpelled(text: string, lead: string, u: string, more: string, trail: string,
                                           t: string, w: string, f: string)
    requires Spells(text, lead, u, more, trail, t) && Decimal(t, w, f)
    ensures Digits(text) == t
  {
    if u != "" {
      NotWhite(u, t, w, f, 0);
      NotWhite(u, t, w, f, |u| - 1);
    }
    assert |u + more| > 0 ==> (u + more)[|u + more| - 1] == if more == "" then u[|u| - 1] else more[|more| - 1];
    BareIs(lead, u + more, trail);
    KeptIs(text, u, more);
    InsertedExactly(u, t);
  }

  lemma {:induction false} AllWhite(s: string)
    requires White(s)
    ensures Bare(s) == ""
    decreases s
  {
    if s != "" {
      WhiteIsSpace(s[0]);
      AllWhite(s[1..]);
      assert DropLeading(s) == DropLeading(s[1..]);
    }
  }

  lemma {:induction false} LeadingIsWhite(s: string) returns (lead: string)
    ensures s == lead + DropLeading(s) && White(lead)
    decreases s
  {
    lead := "";
    if s != "" && IsSpace(s[0]) {
      WhiteIsSpace(s[0]);
      var more := LeadingIsWhite(s[1..]);
      lead := [s[0]] + more;
    }
  }

  lemma OneBehind(s: string, front: string, back: string)
    requires s != "" && s[..|s| - 1] == front + back
    ensures s == front + (back + [s[|s| - 1]])
  {
    assert s == s[..|s| - 1] + [s[|s| - 1]];
  }

  lemma {:induction false} TrailingIsWhite(s: string) returns (trail: string)
    ensures s == DropTrailing(s) + trail && White(trail)
    ensures DropTrailing(s) != "" ==> !WhiteChar(DropTrailing(s)[|DropTrailing(s)| - 1])
    decreases |s|
  {
    trail := "";
    if s != "" {
      var n := |s| - 1;
      WhiteIsSpace(s[n]);
      if IsSpace(s[n]) {
        var front := TrailingIsWhite(s[..n]);
        trail := front + [s[n]];
        OneBehind(s, DropTrailing(s), front);
      }
    }
  }

  /** Every text spells what the code squeezes out of it. */
  lemma {:induction false} SpellsItsDigits(text: string)
      returns (lead: string, u: string, more: string, trail: string)
    ensures Spells(text, lead, u, more, trail, Digits(text))
  {
    lead := LeadingIsWhite(text);
    trail := TrailingIsWhite(DropLeading(text));
    var bare := Bare(text);
    u, more := Kept(text), bare[|Kept(text)|..];
    assert u + more == bare;
    assert lead + bare + trail == lead + (bare + trail);
    assert more != "" ==> more[|more| - 1] == bare[|bare| - 1];
    InsertedExactly(u, Digits(text));
  }

  /**
   A text that spells a decimal is read as the number it denotes, scaled by 10^decimals, when the number
   is below 2^256 and no digit would be lost.
   */
  lemma {:induction false} ReadsTheNumber(text: string, decimals: nat, lead: string, u: string, more: string,
                                          trail: string, t: string, w: string, f: string)
    requires Spells(text, lead, u, more, trail, t) && Decimal(t, w, f)
    ensures AllDigits(w + f)
    ensures Parse(text, decimals) ==
      if |f| > decimals then Refused(TooManyDecimals)
      else if Value(w + f) * Pow10(decimals - |f|) < Pow256(32) then Parsed(Value(w + f) * Pow10(decimals - |f|))
      else Refused(OutOfRange)
  {
    DigitsOfSpelled(text, lead, u, more, trail, t, w, f);
    ReadsTheDecimal(t, decimals, 32, w, f);
  }

  ghost predicate SpellsDecimal(text: string) {
    exists lead, u, more, trail, t, w, f :: Spells(text, lead, u, more, trail, t) && Decimal(t, w, f)
  }

  /** Every other text is refused as no number, and no text spells two decimals. */
  lemma {:induction false} RefusesTheRest(text: string, decimals: nat)
    ensures Parse(text, decimals) == Refused(NotANumber) <==> !SpellsDecimal(text)
  {
    var t := Digits(text);
    if LooksDecimal(t) {
      var lead, u, more, trail := SpellsItsDigits(text);
      LooksDecimalIsDecimal(t);
    } else if SpellsDecimal(text) {
      var lead, u, more, trail, t', w, f :|
        Spells(text, lead, u, more, trail, t') && Decimal(t', w, f);
      DigitsOfSpelled(text, lead, u, more, trail, t', w, f);
      DecimalsLookDecimal(t', w, f);
    }
  }
}
