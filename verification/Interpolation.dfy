/**
 `_parse_official_interpolation` of the cross-parity checker (tools/cross_parity_erc7730.py): a text
 such as "Swap {amount} for {asset}" is taken apart into its literals and its placeholders.
 */
module Interpolation {
  datatype Error = UnmatchedClose | UnmatchedOpen | Malformed

  /** The literals stand around the placeholders, so there is one more of them. */
  datatype Template = Template(literals: seq<string>, placeholders: seq<string>)

  datatype Result = Ok(template: Template) | Err(error: Error)

  /** What `str.strip` takes off is a property of the character set. */
  type Space = char -> bool

  predicate NoBraces(s: string) {
    forall i :: 0 <= i < |s| ==> s[i] != '{' && s[i] != '}'
  }

  /** `placeholder == placeholder.strip()`. */
  predicate Stripped(space: Space, s: string) {
    s != "" ==> !space(s[0]) && !space(s[|s| - 1])
  }

  predicate IsPlaceholder(space: Space, s: string) {
    s != "" && Stripped(space, s) && NoBraces(s)
  }

  /** `value.find("}", from)`, with the length for "not found". */
  function CloseFrom(value: string, from: nat): (n: nat)
    requires from <= |value|
    ensures from <= n <= |value| && (n < |value| ==> value[n] == '}')
    ensures forall i :: from <= i < n ==> value[i] != '}'
    decreases |value| - from
  {
    if from == |value| || value[from] == '}' then from else CloseFrom(value, from + 1)
  }

  /** The parser with `literal` behind it and `rest` ahead. */
  function ParseFrom(space: Space, literal: string, rest: string): Result
    decreases |rest|
  {
    if rest == "" then Ok(Template([literal], []))
    else if rest[0] == '}' then Err(UnmatchedClose)
    else if rest[0] != '{' then ParseFrom(space, literal + [rest[0]], rest[1..])
    else
      var close := CloseFrom(rest, 1);
      if close == |rest| then Err(UnmatchedOpen)
      else if !IsPlaceholder(space, rest[1..close]) then Err(Malformed)
      else Before([literal], [rest[1..close]], ParseFrom(space, "", rest[close + 1..]))
  }

  function Before(literals: seq<string>, placeholders: seq<string>, r: Result): Result {
    match r
    case Ok(t) => Ok(Template(literals + t.literals, placeholders + t.placeholders))
    case Err(_) => r
  }

  function Parse(space: Space, value: string): Result {
    ParseFrom(space, "", value)
  }

  // ---------------------------------------------------------------- the loop

  lemma BeforeNothing(r: Result)
    ensures Before([], [], r) == r
  {
    if r.Ok? {
      assert [] + r.template.literals == r.template.literals;
      assert [] + r.template.placeholders == r.template.placeholders;
    }
  }

  lemma BeforeOne(literals: seq<string>, placeholders: seq<string>, l: string, p: string, r: Result)
    ensures Before(literals, placeholders, Before([l], [p], r)) == Before(literals + [l], placeholders + [p], r)
  {
    if r.Ok? {
      assert literals + ([l] + r.template.literals) == literals + [l] + r.template.literals;
      assert placeholders + ([p] + r.template.placeholders) == placeholders + [p] + r.template.placeholders;
    }
  }

  method ParseOfficial(space: Space, value: string) returns (r: Result)
    ensures r == Parse(space, value)
  {
    var literals, placeholders: seq<string> := [], [];
    var start, cursor := 0, 0;
    assert value[0..] == value && value[0..0] == "";
    BeforeNothing(Parse(space, value));
    while cursor < |value|
      invariant start <= cursor <= |value|
      invariant Before(literals, placeholders, ParseFrom(space, value[start..cursor], value[cursor..])) ==
          Parse(space, value)
      decreases |value| - cursor
    {
      var rest := value[cursor..];
      if value[cursor] == '}' {
        return Err(UnmatchedClose);
      }
      if value[cursor] != '{' {
        assert value[start..cursor] + [rest[0]] == value[start..cursor + 1];
        assert rest[1..] == value[cursor + 1..];
        cursor := cursor + 1;
        continue;
      }
      var close := CloseFrom(value, cursor + 1);
      CloseInRest(value, cursor);
      if close == |value| {
        return Err(UnmatchedOpen);
      }
      var placeholder := value[cursor + 1..close];
      assert placeholder == rest[1..close - cursor];
      if !IsPlaceholder(space, placeholder) {
        return Err(Malformed);
      }
      BeforeOne(literals, placeholders, value[start..cursor], placeholder, ParseFrom(space, "", value[close + 1..]));
      assert rest[close - cursor + 1..] == value[close + 1..];
      literals, placeholders := literals + [value[start..cursor]], placeholders + [placeholder];
      cursor := close + 1;
      start := cursor;
      assert value[start..cursor] == "";
    }
    assert value[cursor..] == "" && value[start..cursor] == value[start..];
    r := Ok(Template(literals + [value[start..]], placeholders));
  }

  /** A search in the text and in what is left of it find the same place. */
  lemma CloseInRest(value: string, cursor: nat)
    requires cursor < |value|
    ensures CloseFrom(value, cursor + 1) == cursor + CloseFrom(value[cursor..], 1)
  {
    CloseIs(value, cursor + 1, cursor + CloseFrom(value[cursor..], 1));
  }

  /** The first closing brace is the only place that is one with none before it. */
  lemma {:induction false} CloseIs(value: string, from: nat, n: nat)
    requires from <= n <= |value| && (n < |value| ==> value[n] == '}')
    requires forall i :: from <= i < n ==> value[i] != '}'
    ensures CloseFrom(value, from) == n
    decreases n - from
  {
    if from < n {
      CloseIs(value, from + 1, n);
    }
  }

  // ---------------------------------------------------------------- templates and their texts

  ghost predicate WellFormed(space: Space, t: Template) {
    && |t.literals| == |t.placeholders| + 1
    && (forall k :: 0 <= k < |t.literals| ==> NoBraces(t.literals[k]))
    && (forall k :: 0 <= k < |t.placeholders| ==> t.placeholders[k] != "" && NoBraces(t.placeholders[k]))
    && (forall k :: 0 <= k < |t.placeholders| && t.placeholders[k] != "" ==>
          !space(t.placeholders[k][0]) && !space(t.placeholders[k][|t.placeholders[k]| - 1]))
  }

  function Render(t: Template): string
    requires |t.literals| == |t.placeholders| + 1
    decreases |t.placeholders|
  {
    if t.placeholders == [] then t.literals[0]
    else t.literals[0] + ("{" + t.placeholders[0] + "}") + Render(Template(t.literals[1..], t.placeholders[1..]))
  }

  /** A literal is read to its end. */
  lemma {:induction false} LiteralIsRead(space: Space, literal: string, more: string, rest: string)
    requires NoBraces(more)
    ensures ParseFrom(space, literal, more + rest) == ParseFrom(space, literal + more, rest)
    decreases |more|
  {
    if more == "" {
      assert more + rest == rest && literal + more == literal;
    } else {
      assert (more + rest)[1..] == more[1..] + rest;
      LiteralIsRead(space, literal + [more[0]], more[1..], rest);
      assert literal + [more[0]] + more[1..] == literal + more;
    }
  }

  /** A placeholder is read, and the rest after it. */
  lemma PlaceholderIsRead(space: Space, literal: string, p: string, rest: string)
    requires IsPlaceholder(space, p)
    ensures ParseFrom(space, literal, ("{" + p + "}") + rest) == Before([literal], [p], ParseFrom(space, "", rest))
  {
    var text := ("{" + p + "}") + rest;
    assert text[1..|p| + 1] == p && text[|p| + 2..] == rest && text[|p| + 1] == '}';
    forall i | 1 <= i < |p| + 1 ensures text[i] != '}' {
      assert text[i] == p[i - 1];
    }
    CloseIs(text, 1, |p| + 1);
  }

  lemma {:induction false} RenderedIsRead(space: Space, t: Template)
    requires WellFormed(space, t)
    ensures Parse(space, Render(t)) == Ok(t)
    decreases |t.placeholders|
  {
    var first := t.literals[0];
    assert "" + first == first;
    if t.placeholders == [] {
      assert first + "" == first;
      LiteralIsRead(space, "", first, "");
      assert t.literals == [first];
    } else {
      var rest := Template(t.literals[1..], t.placeholders[1..]);
      var braced := "{" + t.placeholders[0] + "}";
      assert first + braced + Render(rest) == first + (braced + Render(rest));
      LiteralIsRead(space, "", first, braced + Render(rest));
      PlaceholderIsRead(space, first, t.placeholders[0], Render(rest));
      RenderedIsRead(space, rest);
      assert [first] + t.literals[1..] == t.literals && [t.placeholders[0]] + t.placeholders[1..] == t.placeholders;
    }
  }

  /** What is read is well formed and spells the text. */
  lemma {:induction false} ReadIsRendered(space: Space, literal: string, rest: string)
    requires NoBraces(literal) && ParseFrom(space, literal, rest).Ok?
    ensures var t := ParseFrom(space, literal, rest).template;
            WellFormed(space, t) && Render(t) == literal + rest
    decreases |rest|
  {
    if rest == "" {
      assert literal + rest == literal;
    } else if rest[0] != '{' {
      ReadIsRendered(space, literal + [rest[0]], rest[1..]);
      assert literal + [rest[0]] + rest[1..] == literal + rest;
    } else {
      var close := CloseFrom(rest, 1);
      ReadIsRendered(space, "", rest[close + 1..]);
      assert "" + rest[close + 1..] == rest[close + 1..];
      RenderedBefore(space, literal, rest[1..close], ParseFrom(space, "", rest[close + 1..]).template);
      Braced(literal, rest, close);
    }
  }

  lemma Braced(literal: string, rest: string, close: nat)
    requires 1 <= close < |rest| && rest[0] == '{' && rest[close] == '}'
    ensures literal + ("{" + rest[1..close] + "}") + rest[close + 1..] == literal + rest
  {
    assert ("{" + rest[1..close] + "}") + rest[close + 1..] == rest;
  }

  /** A literal and a placeholder in front of a template. */
  lemma {:induction false} RenderedBefore(space: Space, literal: string, p: string, t: Template)
    requires WellFormed(space, t) && NoBraces(literal) && IsPlaceholder(space, p)
    ensures var all := Template([literal] + t.literals, [p] + t.placeholders);
            WellFormed(space, all) && Render(all) == literal + ("{" + p + "}") + Render(t)
  {
    var all := Template([literal] + t.literals, [p] + t.placeholders);
    assert all.literals[1..] == t.literals && all.placeholders[1..] == t.placeholders;
  }

  /** A text yields a template exactly when the template is well formed and spells it, so no text has two. */
  lemma ParsesExactly(space: Space, value: string, t: Template)
    ensures Parse(space, value) == Ok(t) <==> WellFormed(space, t) && Render(t) == value
  {
    if Parse(space, value) == Ok(t) {
      ReadIsRendered(space, "", value);
      assert "" + value == value;
    }
    if WellFormed(space, t) && Render(t) == value {
      RenderedIsRead(space, t);
    }
  }
}
