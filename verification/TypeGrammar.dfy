/**
 The Solidity type validator of the selector builder (tools/build_selectors_json.py). It works on
 text: depth counting, suffix stripping and a list of primitive names; here it is shown to accept
 the printed forms of type trees and, but for stray spaces and trailing commas, nothing else.
 */
module TypeGrammar {
  import opened Characters

  // ---------------------------------------------------------------- type trees

  datatype Type = Primitive(name: string) | Array(elem: Type, size: string) | Tuple(items: seq<Type>)

  /** A size without leading zero, a multiple of `step` and at most `max`. */
  predicate IsSize(s: string, step: nat, max: nat)
    requires step > 0
  {
    0 < |s| <= 3 && AllDigits(s) && s[0] != '0' && Value(s) % step == 0 && Value(s) <= max
  }

  /** `PRIMITIVE_RE`, on printable ASCII (its `$` also lets a final newline pass). */
  predicate IsPrimitive(t: string) {
    || t == "address" || t == "bool" || t == "string"
    || ("uint" <= t && (t == "uint" || IsSize(t[4..], 8, 256)))
    || ("int" <= t && (t == "int" || IsSize(t[3..], 8, 256)))
    || ("bytes" <= t && (t == "bytes" || IsSize(t[5..], 1, 32)))
  }

  /** A multiple of `step` up to `max`, in decimal. */
  ghost predicate Size(s: string, step: nat, max: nat)
    requires step > 0
  {
    exists n: nat :: 0 < n <= max && n % step == 0 && s == Numeral(n)
  }

  lemma {:induction false} SizesAre(s: string, step: nat, max: nat)
    requires 0 < step && max < 1000
    ensures IsSize(s, step, max) <==> Size(s, step, max)
  {
    if IsSize(s, step, max) {
      IsNumeral(s);
    }
    forall n: nat | 0 < n <= max && n % step == 0 && s == Numeral(n)
      ensures IsSize(s, step, max)
    {
      NumeralReads(n);
      NumeralLength(n);
    }
  }

  lemma NumeralLength(n: nat)
    requires n < 1000
    ensures |Numeral(n)| <= 3
  {
    assert n >= 100 ==> |Numeral(n / 10)| == 2 by {
      assert n >= 100 ==> |Numeral(n / 10 / 10)| == 1;
    }
  }

  /** The primitive types: three plain ones, bytes of 1 to 32, and integers of 8 to 256 bits in steps of 8. */
  ghost predicate Primitively(t: string) {
    || t == "address" || t == "bool" || t == "string" || t == "bytes" || t == "uint" || t == "int"
    || ("bytes" <= t && Size(t[5..], 1, 32)) || ("uint" <= t && Size(t[4..], 8, 256))
    || ("int" <= t && Size(t[3..], 8, 256))
  }

  lemma {:induction false} PrimitivesAre(t: string)
    ensures IsPrimitive(t) <==> Primitively(t)
  {
    if "bytes" <= t {
      SizesAre(t[5..], 1, 32);
    }
    if "uint" <= t {
      SizesAre(t[4..], 8, 256);
    }
    if "int" <= t {
      SizesAre(t[3..], 8, 256);
    }
  }

  predicate WellFormed(ty: Type)
    decreases ty
  {
    match ty
    case Primitive(name) => IsPrimitive(name)
    case Array(elem, size) => WellFormed(elem) && AllDigits(size)
    case Tuple(items) => items != [] && forall k :: 0 <= k < |items| ==> WellFormed(items[k])
  }

  function Join(parts: seq<string>): string
    decreases |parts|
  {
    if parts == [] then "" else if |parts| == 1 then parts[0] else parts[0] + "," + Join(parts[1..])
  }

  function Print(ty: Type): string
    decreases ty
  {
    match ty
    case Primitive(name) => name
    case Array(elem, size) => Print(elem) + "[" + size + "]"
    case Tuple(items) => "(" + Join(Prints(items)) + ")"
  }

  function Prints(items: seq<Type>): (parts: seq<string>)
    ensures |parts| == |items| && forall k :: 0 <= k < |items| ==> parts[k] == Print(items[k])
    decreases items
  {
    if items == [] then [] else [Print(items[0])] + Prints(items[1..])
  }

  // ---------------------------------------------------------------- the validator

  /** 0x20 to 0x7E: what `is_valid_text_sig` lets through, so that a space is the only white space. */
  predicate IsPrintable(c: char): (r: bool)
    ensures r <==> 0x20 <= c as int <= 0x7E
  {
    ' ' <= c <= '~'
  }

  predicate Printable(s: string) {
    forall i :: 0 <= i < |s| ==> IsPrintable(s[i])
  }

  function Lstrip(s: string): (t: string)
    ensures |t| <= |s| && (s != "" && s[0] != ' ' ==> t == s)
    decreases |s|
  {
    if s != "" && s[0] == ' ' then Lstrip(s[1..]) else s
  }

  function Rstrip(s: string): (t: string)
    ensures |t| <= |s| && (s != "" && s[|s| - 1] != ' ' ==> t == s)
    decreases |s|
  {
    if s != "" && s[|s| - 1] == ' ' then Rstrip(s[..|s| - 1]) else s
  }

  function Strip(s: string): (t: string)
    ensures |t| <= |s|
  {
    Rstrip(Lstrip(s))
  }

  predicate Opens(c: char) {
    c == '(' || c == '['
  }

  predicate Closes(c: char) {
    c == ')' || c == ']'
  }

  /** The depth counter, which may go below zero. */
  function Deeper(depth: int, c: char): int {
    if Opens(c) then depth + 1 else if Closes(c) then depth - 1 else depth
  }

  function SplitFrom(depth: int, cur: string, rest: string): (out: seq<string>)
    ensures forall k :: 0 <= k < |out| ==> |out[k]| <= |cur| + |rest|
    decreases |rest|
  {
    if rest == "" then
      if Strip(cur) == "" then [] else [Strip(cur)]
    else if rest[0] == ',' && depth == 0 then [Strip(cur)] + SplitFrom(0, "", rest[1..])
    else SplitFrom(Deeper(depth, rest[0]), cur + [rest[0]], rest[1..])
  }

  function Split(body: string): (out: seq<string>)
    ensures forall k :: 0 <= k < |out| ==> |out[k]| <= |body|
  {
    SplitFrom(0, "", body)
  }

  /** Where the digits end that stop before index `n`. */
  function BackOverDigits(t: string, n: nat): (m: nat)
    requires n <= |t|
    ensures m <= n && AllDigits(t[m..n]) && (m > 0 ==> !IsDigit(t[m - 1]))
    decreases n
  {
    if n > 0 && IsDigit(t[n - 1]) then
      var m := BackOverDigits(t, n - 1);
      assert t[m..n] == t[m..n - 1] + [t[n - 1]];
      m
    else n
  }

  /** The length of what precedes a final `[digits]`, or 0: `^(.+?)(\[\d*\])$`. */
  function BeforeSuffix(t: string): (n: nat)
    ensures n > 0 ==> n < |t| - 1 && t[n] == '[' && t[|t| - 1] == ']' && AllDigits(t[n + 1..|t| - 1])
  {
    if t == "" || t[|t| - 1] != ']' then 0
    else
      var m := BackOverDigits(t, |t| - 1);
      if m > 0 && t[m - 1] == '[' then m - 1 else 0
  }

  predicate ValidType(t: string)
    decreases |t|
  {
    if t == "" then false
    else if BeforeSuffix(t) > 0 then ValidType(t[..BeforeSuffix(t)])
    else if |t| >= 2 && t[0] == '(' && t[|t| - 1] == ')' then
      var inner := t[1..|t| - 1];
      inner != "" && forall k :: 0 <= k < |Split(inner)| ==> ValidType(Split(inner)[k])
    else IsPrimitive(t)
  }

  method SplitTypeList(body: string) returns (out: seq<string>)
    ensures out == Split(body)
  {
    out := [];
    var depth, cur := 0, "";
    for i := 0 to |body|
      invariant out + SplitFrom(depth, cur, body[i..]) == Split(body)
    {
      var ch := body[i];
      ghost var rest := body[i..];
      assert rest[0] == ch && rest[1..] == body[i + 1..];
      if ch == '(' || ch == '[' {
        depth := depth + 1;
        cur := cur + [ch];
      } else if ch == ')' || ch == ']' {
        depth := depth - 1;
        cur := cur + [ch];
      } else if ch == ',' && depth == 0 {
        assert out + ([Strip(cur)] + SplitFrom(0, "", body[i + 1..])) ==
            out + [Strip(cur)] + SplitFrom(0, "", body[i + 1..]);
        out := out + [Strip(cur)];
        cur := "";
      } else {
        cur := cur + [ch];
      }
    }
    assert body[|body|..] == "";
    if Strip(cur) != "" {
      out := out + [Strip(cur)];
    }
  }

  method IsValidType(text: string) returns (ok: bool)
    ensures ok == ValidType(text)
    decreases |text|
  {
    var t := text;
    if t == "" {
      return false;
    }
    while BeforeSuffix(t) > 0
      invariant 0 < |t| <= |text| && ValidType(t) == ValidType(text)
      decreases |t|
    {
      t := t[..BeforeSuffix(t)];
    }
    if |t| >= 2 && t[0] == '(' && t[|t| - 1] == ')' {
      var inner := t[1..|t| - 1];
      if inner == "" {
        return false;
      }
      var parts := SplitTypeList(inner);
      for k := 0 to |parts|
        invariant forall j :: 0 <= j < k ==> ValidType(parts[j])
      {
        var good := IsValidType(parts[k]);
        if !good {
          return false;
        }
      }
      return true;
    }
    ok := IsPrimitive(t);
  }

  // ---------------------------------------------------------------- printed types are accepted

  /** A character of a primitive name: none of the validator's own signs. */
  predicate IsPlain(c: char) {
    'a' <= c <= 'z' || IsDigit(c)
  }

  predicate Plain(s: string) {
    forall i :: 0 <= i < |s| ==> IsPlain(s[i])
  }

  lemma PrimitiveIsPlain(t: string)
    requires IsPrimitive(t)
    ensures t != "" && Plain(t)
  {
    if "uint" <= t {
      assert forall i :: 4 <= i < |t| ==> t[i] == t[4..][i - 4];
    } else if "int" <= t {
      assert forall i :: 3 <= i < |t| ==> t[i] == t[3..][i - 3];
    } else if "bytes" <= t {
      assert forall i :: 5 <= i < |t| ==> t[i] == t[5..][i - 5];
    }
  }

  /** No space, and no comma right before a closing parenthesis. */
  predicate Tidy(s: string) {
    && (forall i :: 0 <= i < |s| ==> s[i] != ' ')
    && (forall i :: 0 <= i < |s| - 1 ==> !(s[i] == ',' && s[i + 1] == ')'))
  }

  lemma {:induction false} PlainPassedOver(depth: int, cur: string, s: string, rest: string)
    requires Plain(s)
    ensures SplitFrom(depth, cur, s + rest) == SplitFrom(depth, cur + s, rest)
    decreases |s|
  {
    if s == "" {
      assert s + rest == rest && cur + s == cur;
    } else {
      assert (s + rest)[0] == s[0] && (s + rest)[1..] == s[1..] + rest;
      assert cur + [s[0]] + s[1..] == cur + s;
      PlainPassedOver(depth, cur + [s[0]], s[1..], rest);
    }
  }

  lemma OnePassedOver(depth: int, cur: string, c: char, rest: string)
    requires !(c == ',' && depth == 0)
    ensures SplitFrom(depth, cur, [c] + rest) == SplitFrom(Deeper(depth, c), cur + [c], rest)
  {
    assert ([c] + rest)[1..] == rest;
  }

  lemma Regroup(a: string, b: string, c: string)
    ensures a + (b + c) == a + b + c
  {
  }

  lemma SuffixPassedOver(depth: int, cur: string, size: string, rest: string)
    requires depth >= 0 && AllDigits(size)
    ensures SplitFrom(depth, cur, "[" + size + "]" + rest) == SplitFrom(depth, cur + ("[" + size + "]"), rest)
  {
    assert "[" + size + "]" + rest == "[" + (size + ("]" + rest));
    OnePassedOver(depth, cur, '[', size + ("]" + rest));
    PlainPassedOver(depth + 1, cur + "[", size, "]" + rest);
    OnePassedOver(depth + 1, cur + "[" + size, ']', rest);
    assert cur + "[" + size + "]" == cur + ("[" + size + "]");
  }

  lemma JoinMore(items: seq<Type>)
    requires |items| > 1
    ensures Join(Prints(items)) == Print(items[0]) + ("," + Join(Prints(items[1..])))
  {
    assert Prints(items)[1..] == Prints(items[1..]);
  }

  lemma TuplePassedOver(depth: int, cur: string, body: string, rest: string)
    requires SplitFrom(depth + 1, cur + "(", body + (")" + rest)) == SplitFrom(depth + 1, cur + "(" + body, ")" + rest)
    requires depth >= 0
    ensures SplitFrom(depth, cur, "(" + body + ")" + rest) == SplitFrom(depth, cur + ("(" + body + ")"), rest)
  {
    assert "(" + body + ")" + rest == "(" + (body + (")" + rest));
    OnePassedOver(depth, cur, '(', body + (")" + rest));
    OnePassedOver(depth + 1, cur + "(" + body, ')', rest);
    assert cur + "(" + body + ")" == cur + ("(" + body + ")");
  }

  lemma ArrayPassedOver(depth: int, cur: string, elem: string, size: string, rest: string)
    requires AllDigits(size) && depth >= 0
    requires SplitFrom(depth, cur, elem + ("[" + size + "]" + rest)) ==
        SplitFrom(depth, cur + elem, "[" + size + "]" + rest)
    ensures SplitFrom(depth, cur, elem + "[" + size + "]" + rest) ==
        SplitFrom(depth, cur + (elem + "[" + size + "]"), rest)
  {
    assert elem + "[" + size + "]" + rest == elem + ("[" + size + "]" + rest);
    SuffixPassedOver(depth, cur + elem, size, rest);
    assert cur + elem + ("[" + size + "]") == cur + (elem + "[" + size + "]");
  }

  /** At depth zero or more a printed type is passed over whole. */
  lemma {:induction false} TypePassedOver(depth: int, cur: string, ty: Type, rest: string)
    requires depth >= 0 && WellFormed(ty)
    ensures SplitFrom(depth, cur, Print(ty) + rest) == SplitFrom(depth, cur + Print(ty), rest)
    decreases ty
  {
    match ty
    case Primitive(name) =>
      PrimitiveIsPlain(name);
      PlainPassedOver(depth, cur, name, rest);
    case Array(elem, size) =>
      TypePassedOver(depth, cur, elem, "[" + size + "]" + rest);
      ArrayPassedOver(depth, cur, Print(elem), size, rest);
    case Tuple(items) =>
      ListPassedOver(depth + 1, cur + "(", items, ")" + rest);
      TuplePassedOver(depth, cur, Join(Prints(items)), rest);
  }

  lemma MorePassedOver(depth: int, cur: string, first: string, more: string, rest: string)
    requires depth > 0
    requires SplitFrom(depth, cur, first + ("," + more + rest)) == SplitFrom(depth, cur + first, "," + more + rest)
    requires SplitFrom(depth, cur + first + ",", more + rest) == SplitFrom(depth, cur + first + "," + more, rest)
    ensures SplitFrom(depth, cur, first + ("," + more) + rest) == SplitFrom(depth, cur + (first + ("," + more)), rest)
  {
    assert first + ("," + more) + rest == first + ("," + more + rest);
    assert "," + more + rest == "," + (more + rest);
    OnePassedOver(depth, cur + first, ',', more + rest);
    assert cur + first + "," + more == cur + (first + ("," + more));
  }

  /** Inside brackets the commas do not separate either. */
  lemma {:induction false} ListPassedOver(depth: int, cur: string, items: seq<Type>, rest: string)
    requires depth > 0 && forall k :: 0 <= k < |items| ==> WellFormed(items[k])
    ensures SplitFrom(depth, cur, Join(Prints(items)) + rest) == SplitFrom(depth, cur + Join(Prints(items)), rest)
    decreases items
  {
    if items == [] {
      assert "" + rest == rest && cur + "" == cur;
    } else if |items| == 1 {
      TypePassedOver(depth, cur, items[0], rest);
    } else {
      var first, more := Print(items[0]), Join(Prints(items[1..]));
      JoinMore(items);
      TypePassedOver(depth, cur, items[0], "," + more + rest);
      ListPassedOver(depth, cur + first + ",", items[1..], rest);
      MorePassedOver(depth, cur, first, more, rest);
    }
  }

  // ---------------------------------------------------------------- prints are tidy

  /** What a print looks like from outside: printable, no space, not empty, no comma at either end. */
  predicate Closed(s: string) {
    s != "" && Printable(s) && Tidy(s) && s[0] != ',' && s[0] != ')' && s[|s| - 1] != ','
  }

  lemma ClosedJoin(a: string, b: string)
    requires Closed(a) && Closed(b)
    ensures Closed(a + "," + b)
  {
    var s := a + "," + b;
    assert forall i :: 0 <= i < |a| ==> s[i] == a[i];
    assert forall i :: |a| < i < |s| ==> s[i] == b[i - |a| - 1];
  }

  lemma ClosedSuffix(a: string, size: string)
    requires Closed(a) && AllDigits(size)
    ensures Closed(a + "[" + size + "]")
  {
    var s := a + "[" + size + "]";
    assert forall i :: 0 <= i < |a| ==> s[i] == a[i];
    assert forall i :: |a| < i < |s| - 1 ==> s[i] == size[i - |a| - 1];
  }

  lemma ClosedTuple(a: string)
    requires Closed(a)
    ensures Closed("(" + a + ")")
  {
    var s := "(" + a + ")";
    assert forall i :: 0 < i < |s| - 1 ==> s[i] == a[i - 1];
  }

  lemma {:induction false} PrintIsClosed(ty: Type)
    requires WellFormed(ty)
    ensures Closed(Print(ty))
    decreases ty
  {
    match ty
    case Primitive(name) =>
      PrimitiveIsPlain(name);
    case Array(elem, size) =>
      PrintIsClosed(elem);
      ClosedSuffix(Print(elem), size);
    case Tuple(items) =>
      JoinIsClosed(items);
      ClosedTuple(Join(Prints(items)));
  }

  lemma {:induction false} JoinIsClosed(items: seq<Type>)
    requires items != [] && forall k :: 0 <= k < |items| ==> WellFormed(items[k])
    ensures Closed(Join(Prints(items)))
    decreases items
  {
    PrintIsClosed(items[0]);
    if |items| > 1 {
      JoinIsClosed(items[1..]);
      assert Prints(items)[1..] == Prints(items[1..]);
      ClosedJoin(Print(items[0]), Join(Prints(items[1..])));
    }
  }

  lemma ClosedIsBare(s: string)
    requires Closed(s)
    ensures Strip(s) == s
  {
  }

  lemma SplitOne(first: string, rest: string)
    requires Closed(first)
    requires SplitFrom(0, "", first + rest) == SplitFrom(0, "" + first, rest)
    ensures rest == "" ==> Split(first + rest) == [first]
    ensures rest != "" && rest[0] == ',' ==> Split(first + rest) == [first] + Split(rest[1..])
  {
    ClosedIsBare(first);
    assert "" + first == first;
  }

  /** Splitting the comma-joined printing of any list of types gives back the printed types. */
  lemma {:induction false} SplitsThePrints(items: seq<Type>)
    requires forall k :: 0 <= k < |items| ==> WellFormed(items[k])
    ensures Split(Join(Prints(items))) == Prints(items)
    decreases items
  {
    if items != [] {
      var first := Print(items[0]);
      PrintIsClosed(items[0]);
      if |items| == 1 {
        assert first + "" == first;
        TypePassedOver(0, "", items[0], "");
        SplitOne(first, "");
      } else {
        var more := Join(Prints(items[1..]));
        SplitsThePrints(items[1..]);
        JoinMore(items);
        TypePassedOver(0, "", items[0], "," + more);
        SplitOne(first, "," + more);
        assert ("," + more)[1..] == more;
      }
    }
  }

  // ---------------------------------------------------------------- spaces around the parts

  predicate Spaces(s: string) {
    forall i :: 0 <= i < |s| ==> s[i] == ' '
  }

  lemma {:induction false} LeadDropped(s: string) returns (lead: string)
    ensures s == lead + Lstrip(s) && Spaces(lead) && (Lstrip(s) != "" ==> Lstrip(s)[0] != ' ')
    decreases |s|
  {
    lead := "";
    if s != "" && s[0] == ' ' {
      lead := LeadDropped(s[1..]);
      lead := [s[0]] + lead;
    }
  }

  lemma {:induction false} TrailDropped(s: string) returns (trail: string)
    ensures s == Rstrip(s) + trail && Spaces(trail) && (Rstrip(s) != "" ==> Rstrip(s)[|Rstrip(s)| - 1] != ' ')
    decreases |s|
  {
    trail := "";
    if s != "" && s[|s| - 1] == ' ' {
      trail := TrailDropped(s[..|s| - 1]);
      trail := trail + [s[|s| - 1]];
    }
  }

  /** Stripping takes the spaces off both ends, and nothing else. */
  lemma {:induction false} StripTakesSpaces(s: string) returns (lead: string, trail: string)
    ensures s == lead + (Strip(s) + trail) && Spaces(lead) && Spaces(trail)
    ensures Strip(s) != "" ==> Strip(s)[0] != ' ' && Strip(s)[|Strip(s)| - 1] != ' '
  {
    lead := LeadDropped(s);
    trail := TrailDropped(Lstrip(s));
    assert Strip(s) != "" ==> Strip(s)[0] == Lstrip(s)[0];
  }

  lemma {:induction false} SpacesPassedOver(cur: string, s: string, rest: string)
    requires Spaces(s)
    ensures SplitFrom(0, cur, s + rest) == SplitFrom(0, cur + s, rest)
    decreases |s|
  {
    if s == "" {
      assert s + rest == rest && cur + s == cur;
    } else {
      assert s + rest == [s[0]] + (s[1..] + rest) && cur + [s[0]] + s[1..] == cur + s;
      OnePassedOver(0, cur, s[0], s[1..] + rest);
      SpacesPassedOver(cur + [s[0]], s[1..], rest);
    }
  }

  lemma {:induction false} SpacedPassedOver(raw: string, ty: Type, rest: string)
    requires WellFormed(ty) && Strip(raw) == Print(ty)
    ensures SplitFrom(0, "", raw + rest) == SplitFrom(0, raw, rest)
  {
    var t := Print(ty);
    var lead, trail := StripTakesSpaces(raw);
    SpacesPassedOver("", lead, t + (trail + rest));
    TypePassedOver(0, lead, ty, trail + rest);
    SpacesPassedOver(lead + t, trail, rest);
    Regroup(lead, t, trail);
    Regroup(lead, t + trail, rest);
    Regroup(t, trail, rest);
    assert "" + lead == lead;
  }

  lemma {:induction false} SpacedOne(raw: string, ty: Type, rest: string)
    requires WellFormed(ty) && Strip(raw) == Print(ty)
    ensures rest == "" ==> Split(raw + rest) == [Print(ty)]
    ensures rest != "" && rest[0] == ',' ==> Split(raw + rest) == [Print(ty)] + Split(rest[1..])
  {
    SpacedPassedOver(raw, ty, rest);
    PrintIsClosed(ty);
  }

  /** The prints of these types with spaces around them. */
  ghost predicate AreSpaced(items: seq<Type>, raw: seq<string>) {
    |raw| == |items| && forall k :: 0 <= k < |items| ==> WellFormed(items[k]) && Strip(raw[k]) == Print(items[k])
  }

  lemma SpacedTail(items: seq<Type>, raw: seq<string>)
    requires AreSpaced(items, raw) && items != []
    ensures WellFormed(items[0]) && Strip(raw[0]) == Print(items[0]) && AreSpaced(items[1..], raw[1..])
  {
  }

  lemma JoinTwo(parts: seq<string>)
    requires |parts| > 1
    ensures Join(parts) == parts[0] + ("," + Join(parts[1..]))
  {
  }

  /** With any spaces around the parts they come out as without. */
  lemma {:induction false} SplitsTheSpaced(items: seq<Type>, raw: seq<string>)
    requires AreSpaced(items, raw)
    ensures Split(Join(raw)) == Prints(items)
    decreases items
  {
    if items != [] {
      SpacedTail(items, raw);
      SplitsTheSpaced(items[1..], raw[1..]);
      if |items| == 1 {
        assert Join(raw) == raw[0] + "";
        SpacedOne(raw[0], items[0], "");
      } else {
        var more := Join(raw[1..]);
        JoinTwo(raw);
        SpacedOne(raw[0], items[0], "," + more);
        assert ("," + more)[1..] == more;
      }
    }
  }

  // ---------------------------------------------------------------- printed types are accepted

  lemma {:induction false} BackIs(t: string, n: nat, m: nat)
    requires m <= n <= |t| && AllDigits(t[m..n]) && (m > 0 ==> !IsDigit(t[m - 1]))
    ensures BackOverDigits(t, n) == m
    decreases n
  {
    if m < n {
      assert t[m..n][n - 1 - m] == t[n - 1];
      assert t[m..n - 1] == t[m..n][..n - 1 - m];
      BackIs(t, n - 1, m);
    }
  }

  lemma SuffixIs(a: string, size: string)
    requires a != "" && AllDigits(size)
    ensures BeforeSuffix(a + "[" + size + "]") == |a|
  {
    var t := a + "[" + size + "]";
    assert t[|a| + 1..|t| - 1] == size;
    BackIs(t, |t| - 1, |a| + 1);
  }

  predicate AllValid(parts: seq<string>) {
    forall k :: 0 <= k < |parts| ==> ValidType(parts[k])
  }

  lemma ParenthesesAreValid(body: string)
    requires body != "" && AllValid(Split(body))
    ensures ValidType("(" + body + ")")
  {
    var t := "(" + body + ")";
    assert t[1..|t| - 1] == body;
  }

  lemma SuffixIsValid(elem: string, size: string)
    requires elem != "" && AllDigits(size) && ValidType(elem)
    ensures ValidType(elem + "[" + size + "]")
  {
    SuffixIs(elem, size);
    assert (elem + "[" + size + "]")[..|elem|] == elem;
  }

  lemma {:induction false} PrintIsValid(ty: Type)
    requires WellFormed(ty)
    ensures ValidType(Print(ty))
    decreases ty
  {
    match ty
    case Primitive(name) =>
      PrimitiveIsPlain(name);
    case Array(elem, size) =>
      PrintIsClosed(elem);
      PrintIsValid(elem);
      SuffixIsValid(Print(elem), size);
    case Tuple(items) =>
      forall k | 0 <= k < |items|
        ensures ValidType(Prints(items)[k])
      {
        PrintIsValid(items[k]);
      }
      SplitsThePrints(items);
      JoinIsClosed(items);
      ParenthesesAreValid(Join(Prints(items)));
  }

  // ---------------------------------------------------------------- and nothing else that is tidy

  lemma TidyParts(a: string, b: string)
    requires Tidy(a + b)
    ensures Tidy(a) && Tidy(b)
  {
    var s := a + b;
    assert forall i :: 0 <= i < |a| ==> s[i] == a[i];
    assert forall i :: 0 <= i < |b| ==> s[|a| + i] == b[i];
  }

  lemma TidyIsBare(s: string)
    requires Tidy(s)
    ensures Strip(s) == s
  {
  }

  ghost predicate NoneEmpty(parts: seq<string>) {
    forall k :: 0 <= k < |parts| ==> parts[k] != ""
  }

  ghost predicate AllTidy(parts: seq<string>) {
    forall k :: 0 <= k < |parts| ==> Tidy(parts[k])
  }

  predicate Neat(s: string) {
    s != "" && Tidy(s) && s[|s| - 1] != ','
  }

  lemma NeatComma(cur: string, rest: string)
    requires rest != "" && rest[0] == ',' && Neat(cur + rest)
    ensures Tidy(cur) && Strip(cur) == cur && Neat(rest[1..])
  {
    TidyParts(cur, rest);
    TidyIsBare(cur);
    assert rest == [rest[0]] + rest[1..];
    TidyParts([rest[0]], rest[1..]);
    assert (cur + rest)[|cur + rest| - 1] == rest[|rest| - 1];
  }

  lemma NoneEmptyTail(first: string, more: seq<string>)
    requires NoneEmpty([first] + more)
    ensures NoneEmpty(more)
  {
    assert forall k :: 0 <= k < |more| ==> more[k] == ([first] + more)[k + 1];
  }

  lemma CommaJoins(cur: string, rest: string, more: seq<string>)
    requires rest != "" && rest[0] == ',' && Neat(cur + rest)
    requires more != [] && Join(more) == rest[1..] && AllTidy(more)
    ensures Join([Strip(cur)] + more) == cur + rest && AllTidy([Strip(cur)] + more)
  {
    NeatComma(cur, rest);
    JoinFront(cur, more);
    assert cur + rest == cur + "," + rest[1..];
  }

  /** When no part is empty, joining the parts gives back what was split. */
  lemma {:induction false} SplitJoins(depth: int, cur: string, rest: string, whole: string)
    requires cur + rest == whole && Neat(whole) && NoneEmpty(SplitFrom(depth, cur, rest))
    ensures var out := SplitFrom(depth, cur, rest);
      out != [] && Join(out) == whole && AllTidy(out)
    decreases |rest|
  {
    if rest == "" {
      assert cur == whole;
      TidyIsBare(cur);
    } else if rest[0] == ',' && depth == 0 {
      var more := SplitFrom(0, "", rest[1..]);
      NoneEmptyTail(Strip(cur), more);
      NeatComma(cur, rest);
      SplitJoins(0, "", rest[1..], rest[1..]);
      CommaJoins(cur, rest, more);
    } else {
      assert cur + [rest[0]] + rest[1..] == whole;
      SplitJoins(Deeper(depth, rest[0]), cur + [rest[0]], rest[1..], whole);
    }
  }

  lemma JoinFront(first: string, more: seq<string>)
    requires more != []
    ensures Join([first] + more) == first + "," + Join(more)
  {
    assert ([first] + more)[1..] == more;
  }

  lemma SuffixParts(t: string)
    requires Tidy(t) && BeforeSuffix(t) > 0
    ensures var n := BeforeSuffix(t);
      Tidy(t[..n]) && t == t[..n] + "[" + t[n + 1..|t| - 1] + "]" && AllDigits(t[n + 1..|t| - 1])
  {
    var n := BeforeSuffix(t);
    assert t == t[..n] + t[n..];
    TidyParts(t[..n], t[n..]);
  }

  lemma TupleParts(t: string)
    requires Tidy(t) && |t| > 2 && t[0] == '(' && t[|t| - 1] == ')'
    requires NoneEmpty(Split(t[1..|t| - 1]))
    ensures var inner := t[1..|t| - 1];
      t == "(" + inner + ")" && Split(inner) != [] && Join(Split(inner)) == inner && AllTidy(Split(inner))
  {
    var inner := t[1..|t| - 1];
    assert t == ("(" + inner) + ")";
    TidyParts("(" + inner, ")");
    TidyParts("(", inner);
    assert inner[|inner| - 1] == t[|t| - 2];
    assert "" + inner == inner;
    SplitJoins(0, "", inner, inner);
  }

  lemma {:induction false} TypeOf(t: string) returns (ty: Type)
    requires ValidType(t) && Tidy(t)
    ensures WellFormed(ty) && Print(ty) == t
    decreases |t|, 1, 0
  {
    var n := BeforeSuffix(t);
    if n > 0 {
      SuffixParts(t);
      var elem := TypeOf(t[..n]);
      ty := Array(elem, t[n + 1..|t| - 1]);
    } else if |t| >= 2 && t[0] == '(' && t[|t| - 1] == ')' {
      TupleParts(t);
      var items := TypesOf(Split(t[1..|t| - 1]), |t|);
      ty := Tuple(items);
    } else {
      ty := Primitive(t);
    }
  }

  lemma {:induction false} TypesOf(parts: seq<string>, bound: nat) returns (items: seq<Type>)
    requires AllTidy(parts) && forall k :: 0 <= k < |parts| ==> ValidType(parts[k]) && |parts[k]| < bound
    ensures |items| == |parts| && Prints(items) == parts
    ensures forall k :: 0 <= k < |items| ==> WellFormed(items[k])
    decreases bound, 0, |parts|
  {
    items := [];
    if parts != [] {
      var first := TypeOf(parts[0]);
      var more := TypesOf(parts[1..], bound);
      items := [first] + more;
      assert items[1..] == more;
    }
  }

  // ---------------------------------------------------------------- a print has one reading

  lemma LastCharacter(ty: Type)
    requires WellFormed(ty)
    ensures Print(ty) != ""
    ensures ty.Primitive? ==> IsPlain(Print(ty)[|Print(ty)| - 1])
    ensures ty.Array? ==> Print(ty)[|Print(ty)| - 1] == ']'
    ensures ty.Tuple? ==> Print(ty)[|Print(ty)| - 1] == ')'
  {
    if ty.Primitive? {
      PrimitiveIsPlain(ty.name);
    }
  }

  lemma {:induction false} PrintInjective(a: Type, b: Type)
    requires WellFormed(a) && WellFormed(b) && Print(a) == Print(b)
    ensures a == b
    decreases a
  {
    LastCharacter(a);
    LastCharacter(b);
    if a.Array? {
      PrintIsClosed(a.elem);
      PrintIsClosed(b.elem);
      SuffixIs(Print(a.elem), a.size);
      SuffixIs(Print(b.elem), b.size);
      var t, n := Print(a), |Print(a.elem)|;
      assert Print(a.elem) == t[..n] == Print(b.elem);
      assert a.size == t[n + 1..|t| - 1] == b.size;
      PrintInjective(a.elem, b.elem);
    } else if a.Tuple? {
      var t := Print(a);
      assert Join(Prints(a.items)) == t[1..|t| - 1] == Join(Prints(b.items));
      SplitsThePrints(a.items);
      SplitsThePrints(b.items);
      PrintsInjective(a.items, b.items);
    }
  }

  lemma {:induction false} PrintsInjective(xs: seq<Type>, ys: seq<Type>)
    requires forall k :: 0 <= k < |xs| ==> WellFormed(xs[k])
    requires forall k :: 0 <= k < |ys| ==> WellFormed(ys[k])
    requires Prints(xs) == Prints(ys)
    ensures xs == ys
    decreases xs
  {
    assert |xs| == |Prints(xs)| == |Prints(ys)| == |ys|;
    if xs != [] {
      assert Prints(xs)[0] == Prints(ys)[0];
      PrintInjective(xs[0], ys[0]);
      assert Prints(xs)[1..] == Prints(xs[1..]) && Prints(ys)[1..] == Prints(ys[1..]);
      PrintsInjective(xs[1..], ys[1..]);
    }
  }

  ghost predicate IsPrintOf(t: string, ty: Type) {
    WellFormed(ty) && Print(ty) == t
  }

  /** The tidy printable texts that are accepted are the prints of type trees, and each is the print of one tree. */
  lemma AcceptsExactlyThePrints(t: string)
    ensures Printable(t) && Tidy(t) && ValidType(t) <==> exists ty :: IsPrintOf(t, ty)
    ensures forall a, b :: IsPrintOf(t, a) && IsPrintOf(t, b) ==> a == b
  {
    if Printable(t) && Tidy(t) && ValidType(t) {
      var ty := TypeOf(t);
      assert IsPrintOf(t, ty);
    }
    forall ty | IsPrintOf(t, ty)
      ensures Printable(t) && Tidy(t) && ValidType(t)
    {
      PrintIsValid(ty);
      PrintIsClosed(ty);
    }
    forall a, b | IsPrintOf(t, a) && IsPrintOf(t, b)
      ensures a == b
    {
      PrintInjective(a, b);
    }
  }

  // ---------------------------------------------------------------- where it accepts more

  lemma {:induction false} TrailingCommaDropped(items: seq<Type>)
    requires items != [] && forall k :: 0 <= k < |items| ==> WellFormed(items[k])
    ensures Split(Join(Prints(items)) + ",") == Prints(items)
    decreases items
  {
    var first := Print(items[0]);
    PrintIsClosed(items[0]);
    if |items| == 1 {
      TypePassedOver(0, "", items[0], ",");
      SplitOne(first, ",");
      assert ","[1..] == "";
    } else {
      var more := Join(Prints(items[1..]));
      TrailingCommaDropped(items[1..]);
      JoinMore(items);
      assert first + ("," + more) + "," == first + ("," + (more + ","));
      TypePassedOver(0, "", items[0], "," + (more + ","));
      SplitOne(first, "," + (more + ","));
      assert ("," + (more + ","))[1..] == more + ",";
    }
  }

  lemma PrintsAreValid(items: seq<Type>)
    requires forall k :: 0 <= k < |items| ==> WellFormed(items[k])
    ensures AllValid(Prints(items))
  {
    forall k | 0 <= k < |items|
      ensures ValidType(Prints(items)[k])
    {
      PrintIsValid(items[k]);
    }
  }

  /** So a tuple may have spaces around its parts. */
  lemma {:induction false} SpacedTupleAccepted(items: seq<Type>, raw: seq<string>)
    requires AreSpaced(items, raw) && items != []
    ensures ValidType("(" + Join(raw) + ")")
  {
    SplitsTheSpaced(items, raw);
    PrintsAreValid(items);
    PrintIsClosed(items[0]);
    assert Join(raw) != "";
    ParenthesesAreValid(Join(raw));
  }

  /** A comma before the closing parenthesis is let through, though no type prints one. */
  lemma TrailingCommaAccepted(items: seq<Type>)
    requires items != [] && forall k :: 0 <= k < |items| ==> WellFormed(items[k])
    ensures ValidType("(" + (Join(Prints(items)) + ",") + ")")
    ensures !Tidy("(" + (Join(Prints(items)) + ",") + ")")
  {
    var body := Join(Prints(items)) + ",";
    TrailingCommaDropped(items);
    PrintsAreValid(items);
    ParenthesesAreValid(body);
    var t := "(" + body + ")";
    assert t[|t| - 2] == ',' && t[|t| - 1] == ')';
  }

  // ---------------------------------------------------------------- signatures

  const MAX_LEN: nat := 63

  predicate IsNameStart(c: char) {
    IsLetter(c) || c == '_'
  }

  /** `[A-Za-z_][A-Za-z0-9_]*` */
  predicate IsName(s: string) {
    s != "" && IsNameStart(s[0]) && forall i :: 0 <= i < |s| ==> IsNameStart(s[i]) || IsDigit(s[i])
  }

  /** A letter or an underscore, then these and digits. */
  lemma {:induction false} NameGrows(name: string, c: char)
    ensures !IsName("")
    ensures IsName([c]) <==> IsLetter(c) || c == '_'
    ensures name != "" ==> (IsName(name + [c]) <==> IsName(name) && (IsLetter(c) || IsDigit(c) || c == '_'))
  {
    var more := name + [c];
    if IsName(more) && name != "" {
      assert forall i :: 0 <= i < |name| ==> name[i] == more[i];
    }
    assert more[|name|] == c;
  }

  /** `text.find("(")`, or the length. */
  function ParenAt(text: string): (n: nat)
    ensures n <= |text| && (n < |text| ==> text[n] == '(')
    ensures forall i :: 0 <= i < n ==> text[i] != '('
    decreases |text|
  {
    if text == "" || text[0] == '(' then 0 else ParenAt(text[1..]) + 1
  }

  predicate ValidSig(text: string) {
    && 0 < |text| <= MAX_LEN && Printable(text)
    && 1 <= ParenAt(text) < |text| && text[|text| - 1] == ')'
    && IsName(text[..ParenAt(text)])
    && var body := text[ParenAt(text) + 1..|text| - 1];
       body == "" || AllValid(Split(body))
  }

  method IsValidTextSig(text: string) returns (ok: bool)
    ensures ok == ValidSig(text)
  {
    if text == "" || |text| > MAX_LEN {
      return false;
    }
    for i := 0 to |text|
      invariant forall j :: 0 <= j < i ==> IsPrintable(text[j])
    {
      if !IsPrintable(text[i]) {
        return false;
      }
    }
    var openParen := ParenAt(text);
    if openParen < 1 || openParen == |text| || text[|text| - 1] != ')' {
      return false;
    }
    if !IsName(text[..openParen]) {
      return false;
    }
    var body := text[openParen + 1..|text| - 1];
    if body == "" {
      return true;
    }
    var parts := SplitTypeList(body);
    for k := 0 to |parts|
      invariant forall j :: 0 <= j < k ==> ValidType(parts[j])
    {
      var good := IsValidType(parts[k]);
      if !good {
        return false;
      }
    }
    ok := true;
  }

  ghost predicate IsSignature(text: string, name: string, items: seq<Type>) {
    && IsName(name) && (forall k :: 0 <= k < |items| ==> WellFormed(items[k]))
    && text == name + "(" + Join(Prints(items)) + ")"
  }

  lemma {:induction false} ParenIs(text: string, n: nat)
    requires n < |text| && text[n] == '(' && forall i :: 0 <= i < n ==> text[i] != '('
    ensures ParenAt(text) == n
  {
  }

  lemma SignatureShape(name: string, body: string)
    requires IsName(name)
    ensures var text := name + "(" + body + ")";
      && ParenAt(text) == |name| && text[..|name|] == name && text[|name| + 1..|text| - 1] == body
      && (Printable(body) ==> Printable(text))
  {
    var text := name + "(" + body + ")";
    assert forall i :: 0 <= i < |name| ==> text[i] == name[i];
    assert forall i :: |name| < i < |text| - 1 ==> text[i] == body[i - |name| - 1];
    ParenIs(text, |name|);
  }

  /** Every signature of at most 63 characters is accepted. */
  lemma SignatureIsValid(text: string, name: string, items: seq<Type>)
    requires IsSignature(text, name, items) && |text| <= 63
    ensures ValidSig(text)
  {
    SignatureShape(name, Join(Prints(items)));
    if items != [] {
      JoinIsClosed(items);
      SplitsThePrints(items);
      PrintsAreValid(items);
    }
  }

  lemma ListOf(tail: string, bound: nat) returns (items: seq<Type>)
    requires Tidy(tail) && |tail| > 2 && tail[0] == '(' && tail[|tail| - 1] == ')' && |tail| <= bound
    requires AllValid(Split(tail[1..|tail| - 1]))
    ensures tail == "(" + Join(Prints(items)) + ")" && forall k :: 0 <= k < |items| ==> WellFormed(items[k])
  {
    var body := tail[1..|tail| - 1];
    assert NoneEmpty(Split(body));
    TupleParts(tail);
    items := TypesOf(Split(body), bound);
  }

  lemma SplitName(text: string, n: nat)
    requires n < |text| && Tidy(text)
    ensures text == text[..n] + text[n..] && Tidy(text[n..])
    ensures |text| - n > 2 ==> text[n..][1..|text| - n - 1] == text[n + 1..|text| - 1]
  {
    assert text == text[..n] + text[n..];
    TidyParts(text[..n], text[n..]);
  }

  /** What follows the name. */
  lemma {:induction false} ParameterList(text: string, n: nat) returns (items: seq<Type>)
    requires n + 2 <= |text| && text[n] == '(' && text[|text| - 1] == ')' && Tidy(text)
    requires n + 2 < |text| ==> AllValid(Split(text[n + 1..|text| - 1]))
    ensures text[n..] == "(" + Join(Prints(items)) + ")" && forall k :: 0 <= k < |items| ==> WellFormed(items[k])
  {
    SplitName(text, n);
    if n + 2 == |text| {
      items := [];
      assert text[n..] == "(" + "" + ")";
    } else {
      items := ListOf(text[n..], |text|);
    }
  }

  lemma NameInFront(text: string, n: nat, list: string)
    requires n <= |text| && text[n..] == "(" + list + ")"
    ensures text == text[..n] + "(" + list + ")"
  {
    assert text == text[..n] + text[n..];
  }

  /** Every tidy text that is accepted is a signature. */
  lemma {:induction false} ValidSigIsSignature(text: string) returns (name: string, items: seq<Type>)
    requires ValidSig(text) && Tidy(text)
    ensures IsSignature(text, name, items) && |text| <= 63 && Printable(text)
  {
    var n := ParenAt(text);
    name := text[..n];
    items := ParameterList(text, n);
    NameInFront(text, n, Join(Prints(items)));
  }
}
