/**
 `_split_top_level` of the cross-parity checker (tools/cross_parity_erc7730.py): a review value is
 split at the commas that stand outside strings and brackets.
 */
module Splitter {
  import opened Bytes
  import opened Characters

  datatype Error = Mismatched | EmptyItem | UnterminatedString | UnterminatedContainer

  datatype Result<T> = Ok(value: T) | Err(error: Error)

  /** `quoted` and `escaped`: a character is escaped only inside a string. */
  datatype Mode = Plain | Quoted | Escaped

  datatype State = State(stack: string, mode: Mode)

  const START := State("", Plain)

  predicate IsOpen(c: char) {
    c == '(' || c == '[' || c == '{'
  }

  predicate IsClose(c: char) {
    c == ')' || c == ']' || c == '}'
  }

  /** `pairs`. */
  function Opener(c: char): char
    requires IsClose(c)
  {
    if c == ')' then '(' else if c == ']' then '[' else '{'
  }

  /** One character that is not a separator; None is a bracket that closes nothing, or the wrong one. */
  function Step(s: State, c: char): Option<State> {
    if s.mode == Escaped then Some(s.(mode := Quoted))
    else if s.mode == Quoted then
      Some(if c == '\\' then s.(mode := Escaped) else if c == '"' then s.(mode := Plain) else s)
    else if c == '"' then Some(s.(mode := Quoted))
    else if IsOpen(c) then Some(s.(stack := s.stack + [c]))
    else if IsClose(c) then
      var n := |s.stack|;
      if n == 0 || s.stack[n - 1] != Opener(c) then None else Some(s.(stack := s.stack[..n - 1]))
    else Some(s)
  }

  predicate Separates(s: State, c: char) {
    s == START && c == ','
  }

  function Finish(s: State, part: string): Result<seq<string>> {
    if s.mode != Plain then Err(UnterminatedString)
    else if s.stack != "" then Err(UnterminatedContainer)
    else if part == "" then Err(EmptyItem)
    else Ok([part])
  }

  function Before(part: string, r: Result<seq<string>>): Result<seq<string>> {
    match r
    case Ok(parts) => Ok([part] + parts)
    case Err(e) => Err(e)
  }

  /** The parts of `part + rest`, the scan standing between the two with no comma passed in `part`. */
  function SplitFrom(s: State, part: string, rest: string): (r: Result<seq<string>>)
    ensures r.Ok? ==> r.value != []
    decreases |rest|
  {
    if rest == "" then Finish(s, part)
    else if Separates(s, rest[0]) then
      if part == "" then Err(EmptyItem) else Before(part, SplitFrom(s, "", rest[1..]))
    else
      match Step(s, rest[0])
      case None => Err(Mismatched)
      case Some(next) => SplitFrom(next, part + [rest[0]], rest[1..])
  }

  function Split(value: string): Result<seq<string>> {
    if value == "" then Ok([]) else SplitFrom(START, "", value)
  }

  // ---------------------------------------------------------------- the loop

  function Prefixed(parts: seq<string>, r: Result<seq<string>>): Result<seq<string>> {
    match r
    case Ok(more) => Ok(parts + more)
    case Err(e) => Err(e)
  }

  lemma PrefixedNothing(r: Result<seq<string>>)
    ensures Prefixed([], r) == r
  {
    if r.Ok? {
      assert [] + r.value == r.value;
    }
  }

  lemma PrefixedBefore(parts: seq<string>, part: string, r: Result<seq<string>>)
    ensures Prefixed(parts, Before(part, r)) == Prefixed(parts + [part], r)
  {
    if r.Ok? {
      assert parts + ([part] + r.value) == parts + [part] + r.value;
    }
  }

  /** One turn of the scan when no part ends. */
  lemma StepForward(s: State, value: string, start: nat, i: nat, next: State)
    requires start <= i < |value| && !Separates(s, value[i]) && Step(s, value[i]) == Some(next)
    ensures SplitFrom(s, value[start..i], value[i..]) == SplitFrom(next, value[start..i + 1], value[i + 1..])
  {
    assert value[start..i] + [value[i]] == value[start..i + 1];
  }

  method SplitTopLevel(value: string) returns (r: Result<seq<string>>)
    ensures r == Split(value)
  {
    if |value| == 0 {
      return Ok([]);
    }
    var parts: seq<string> := [];
    var start := 0;
    var stack := "";
    var quoted, escaped := false, false;
    var index := 0;
    assert value[0..] == value && value[0..0] == "";
    PrefixedNothing(SplitFrom(START, "", value));
    while index < |value|
      invariant start <= index <= |value|
      invariant escaped ==> quoted
      invariant Prefixed(parts, SplitFrom(Now(stack, quoted, escaped), value[start..index], value[index..])) ==
          Split(value)
    {
      var c := value[index];
      ghost var before := Now(stack, quoted, escaped);
      if quoted {
        if escaped {
          escaped := false;
        } else if c == '\\' {
          escaped := true;
        } else if c == '"' {
          quoted := false;
        }
        StepForward(before, value, start, index, Now(stack, quoted, escaped));
        index := index + 1;
        continue;
      }
      if c == ',' && |stack| == 0 {
        var part := value[start..index];
        if |part| == 0 {
          return Err(EmptyItem);
        }
        PrefixedBefore(parts, part, SplitFrom(START, "", value[index + 1..]));
        parts := parts + [part];
        start := index + 1;
        assert value[start..start] == "";
      } else {
        if c == '"' {
          quoted := true;
        } else if IsOpen(c) {
          stack := stack + [c];
        } else if IsClose(c) {
          if |stack| == 0 || stack[|stack| - 1] != Opener(c) {
            return Err(Mismatched);
          }
          stack := stack[..|stack| - 1];
        }
        StepForward(before, value, start, index, Now(stack, quoted, escaped));
      }
      index := index + 1;
    }
    if quoted || escaped {
      return Err(UnterminatedString);
    }
    if |stack| > 0 {
      return Err(UnterminatedContainer);
    }
    var part := value[start..];
    if |part| == 0 {
      return Err(EmptyItem);
    }
    assert value[start..index] == part;
    r := Ok(parts + [part]);
  }

  function Now(stack: string, quoted: bool, escaped: bool): State {
    State(stack, if escaped then Escaped else if quoted then Quoted else Plain)
  }

  // ---------------------------------------------------------------- splitting undoes joining

  /** `",".join(parts)`. */
  function Join(parts: seq<string>): string
    decreases |parts|
  {
    if parts == [] then "" else if |parts| == 1 then parts[0] else parts[0] + "," + Join(parts[1..])
  }

  /** A part that splits to itself alone. */
  predicate Item(p: string) {
    Split(p) == Ok([p])
  }

  ghost predicate AllItems(parts: seq<string>) {
    forall k :: 0 <= k < |parts| ==> Item(parts[k])
  }

  /** The first part, scanned alone from where the scan stood, ends where it ended. */
  lemma {:induction false} FirstPart(s: State, part: string, rest: string)
    requires SplitFrom(s, part, rest).Ok?
    ensures var parts := SplitFrom(s, part, rest).value;
      && Join(parts) == part + rest
      && part <= parts[0]
      && SplitFrom(s, part, parts[0][|part|..]) == Ok([parts[0]])
      && AllItems(parts[1..])
    decreases |rest|
  {
    var parts := SplitFrom(s, part, rest).value;
    if rest == "" {
      assert part + rest == part;
    } else if Separates(s, rest[0]) {
      var more := SplitFrom(s, "", rest[1..]).value;
      FirstPart(s, "", rest[1..]);
      assert parts[1..] == more;
      assert more[0][0..] == more[0];
      assert Item(more[0]);
      assert more == [more[0]] + more[1..];
      assert part + "," + rest[1..] == part + rest;
    } else {
      var next, c := Step(s, rest[0]).value, rest[0];
      FirstPart(next, part + [c], rest[1..]);
      assert part + [c] + rest[1..] == part + rest;
      var tail := parts[0][|part|..];
      assert tail[0] == c && tail[1..] == parts[0][|part| + 1..];
    }
  }

  /** What is accepted is the join of the parts, and each part is an item. */
  lemma SplitUndoesJoin(value: string)
    requires Split(value).Ok?
    ensures Join(Split(value).value) == value && AllItems(Split(value).value)
  {
    if value != "" {
      FirstPart(START, "", value);
      var parts := Split(value).value;
      assert parts[0][0..] == parts[0];
      assert "" + value == value;
      assert parts == [parts[0]] + parts[1..];
      ItemIsNotEmpty(parts[0]);
    }
  }

  lemma ItemIsNotEmpty(p: string)
    requires p == "" ==> SplitFrom(START, "", p) == Ok([p])
    ensures p != ""
  {
  }

  /** A separator ahead makes more than one part, so a single part has none. */
  lemma SeparatorMakesMore(s: State, part: string, rest: string)
    requires rest != "" && SplitFrom(s, part, rest).Ok?
    ensures Separates(s, rest[0]) ==> |SplitFrom(s, part, rest).value| > 1
  {
  }

  /** An item followed by a comma and an accepted value. */
  lemma {:induction false} ItemThenMore(s: State, part: string, p: string, value: string)
    requires SplitFrom(s, part, p) == Ok([part + p])
    requires SplitFrom(START, "", value).Ok?
    ensures SplitFrom(s, part, p + "," + value) == Ok([part + p] + SplitFrom(START, "", value).value)
    decreases |p|
  {
    var all := p + "," + value;
    if p == "" {
      assert all[0] == ',' && all[1..] == value;
      assert part + p == part;
    } else {
      assert all[0] == p[0] && all[1..] == p[1..] + "," + value;
      SeparatorMakesMore(s, part, p);
      var next := Step(s, p[0]).value;
      assert part + [p[0]] + p[1..] == part + p;
      ItemThenMore(next, part + [p[0]], p[1..], value);
    }
  }

  /** Any list of items is recovered from its join. */
  lemma {:induction false} JoinUndoesSplit(parts: seq<string>)
    requires AllItems(parts)
    ensures Split(Join(parts)) == Ok(parts)
    decreases |parts|
  {
    if |parts| == 1 {
      assert parts == [parts[0]];
    } else if |parts| > 1 {
      var p, more := parts[0], parts[1..];
      assert AllItems(more);
      JoinUndoesSplit(more);
      JoinIsNotEmpty(more);
      assert "" + p == p;
      ItemThenMore(START, "", p, Join(more));
      assert parts == [p] + more;
    }
  }

  lemma JoinIsNotEmpty(parts: seq<string>)
    requires AllItems(parts) && parts != []
    ensures Join(parts) != ""
  {
    assert Item(parts[0]);
  }

  lemma SplitsIntoItems(value: string, parts: seq<string>)
    ensures Split(value) == Ok(parts) <==> value == Join(parts) && AllItems(parts)
  {
    if Split(value) == Ok(parts) {
      SplitUndoesJoin(value);
    }
    if value == Join(parts) && AllItems(parts) {
      JoinUndoesSplit(parts);
    }
  }

  // ---------------------------------------------------------------- what the items are

  /** Below an open bracket a value that would be accepted at the top is passed over whole. */
  lemma {:induction false} PassedOver(s: State, ignored: string, inner: string, below: string, part: string,
                                      rest: string)
    requires SplitFrom(s, ignored, inner).Ok? && below != ""
    ensures SplitFrom(State(below + s.stack, s.mode), part, inner + rest)
         == SplitFrom(State(below, Plain), part + inner, rest)
    decreases |inner|
  {
    var lifted := State(below + s.stack, s.mode);
    if inner == "" {
      assert inner + rest == rest && part + inner == part && below + "" == below;
    } else {
      var c := inner[0];
      assert (inner + rest)[0] == c && (inner + rest)[1..] == inner[1..] + rest;
      assert part + [c] + inner[1..] == part + inner;
      if Separates(s, c) {
        assert below + "" == below;
        PassedOver(START, "", inner[1..], below, part + [c], rest);
      } else {
        var next := Step(s, c).value;
        StepLifted(s, c, below);
        PassedOver(next, ignored + [c], inner[1..], below, part + [c], rest);
      }
    }
  }

  lemma StepLifted(s: State, c: char, below: string)
    requires Step(s, c).Some?
    ensures Step(State(below + s.stack, s.mode), c)
         == Some(State(below + Step(s, c).value.stack, Step(s, c).value.mode))
  {
    if s.mode == Plain && c != '"' && IsOpen(c) {
      assert below + s.stack + [c] == below + (s.stack + [c]);
    } else if s.mode == Plain && c != '"' && IsClose(c) {
      var n := |s.stack|;
      assert (below + s.stack)[..|below| + n - 1] == below + s.stack[..n - 1];
    }
  }

  /** Brackets of one kind around an accepted value make an item, to any depth. */
  lemma BracketsMakeAnItem(open: char, inner: string, close: char)
    requires IsOpen(open) && IsClose(close) && Opener(close) == open
    requires Split(inner).Ok?
    ensures Item([open] + inner + [close])
  {
    var p := [open] + inner + [close];
    assert p[1..] == inner + [close] && "" + [open] == [open] && "" + "" == "";
    assert [open] + "" == [open];
    if inner == "" {
      assert p[1..] == [close] && inner + [close] == [close];
    } else {
      PassedOver(START, "", inner, [open], [open], [close]);
    }
    assert SplitFrom(START, "", p) == SplitFrom(State([open], Plain), [open] + inner, [close]);
    assert Step(State([open], Plain), close) == Some(START);
    assert [close][1..] == "" && [open] + inner + [close] == p;
    assert SplitFrom(State([open], Plain), [open] + inner, [close]) == SplitFrom(START, p, "");
    assert SplitFrom(START, p, "") == Ok([p]);
  }

  /** Brackets of two kinds do not match, whatever stands between them. */
  lemma MixedBracketsAreRefused(open: char, inner: string, close: char, rest: string)
    requires open in "([{" && close in ")]}" && [open, close] !in ["()", "[]", "{}"]
    requires Split(inner).Ok?
    ensures Split([open] + inner + [close] + rest) == Err(Mismatched)
  {
    var p := [open] + inner + [close] + rest;
    assert p[1..] == inner + ([close] + rest) && "" + [open] == [open] && "" + "" == "";
    assert [open] + "" == [open];
    if inner == "" {
      assert p[1..] == [close] + rest;
    } else {
      PassedOver(START, "", inner, [open], [open], [close] + rest);
    }
    assert SplitFrom(START, "", p) == SplitFrom(State([open], Plain), [open] + inner, [close] + rest);
  }

  function Escape(text: string): string
    decreases |text|
  {
    if text == "" then "" else Shown(text[0]) + Escape(text[1..])
  }

  function Shown(c: char): string {
    if c == '"' || c == '\\' then ['\\', c] else [c]
  }

  lemma {:induction false} EscapedCharacter(stack: string, part: string, c: char, tail: string)
    ensures SplitFrom(State(stack, Quoted), part, Shown(c) + tail)
         == SplitFrom(State(stack, Quoted), part + Shown(c), tail)
  {
    assert ([c] + tail)[1..] == tail;
    if c == '"' || c == '\\' {
      var all := ['\\', c] + tail;
      assert all[0] == '\\' && all[1..] == [c] + tail;
      assert part + ['\\'] + [c] == part + ['\\', c];
    }
  }

  lemma {:induction false} StringPassedOver(stack: string, part: string, text: string, rest: string)
    ensures SplitFrom(State(stack, Quoted), part, Escape(text) + rest)
         == SplitFrom(State(stack, Quoted), part + Escape(text), rest)
    decreases |text|
  {
    if text == "" {
      assert Escape(text) + rest == rest && part + Escape(text) == part;
    } else {
      var shown, more := Shown(text[0]), Escape(text[1..]);
      assert Escape(text) + rest == shown + (more + rest);
      EscapedCharacter(stack, part, text[0], more + rest);
      StringPassedOver(stack, part + shown, text[1..], rest);
      assert part + shown + more == part + Escape(text);
    }
  }

  /** A quoted string is an item, whatever commas, brackets, quotes and backslashes it spells. */
  lemma StringsAreItems(text: string)
    ensures Item("\"" + Escape(text) + "\"")
  {
    var p := "\"" + Escape(text) + "\"";
    assert p[1..] == Escape(text) + "\"" && "" + ['"'] == "\"";
    StringPassedOver("", "\"", text, "\"");
    assert "\""[1..] == "";
  }

  // ---------------------------------------------------------------- the grammar of the parts

  datatype Kind = Round | Square | Curly

  /** A character inside a string: as it is, or behind a backslash. */
  datatype QChar = Raw(c: char) | Slashed(c: char)

  datatype Piece = Char(c: char) | Text(inside: seq<QChar>) | Group(kind: Kind, pieces: seq<Piece>)

  function OpenOf(k: Kind): char {
    match k
    case Round => '('
    case Square => '['
    case Curly => '{'
  }

  function CloseOf(k: Kind): char {
    match k
    case Round => ')'
    case Square => ']'
    case Curly => '}'
  }

  function SpellOne(q: QChar): string {
    match q
    case Raw(c) => [c]
    case Slashed(c) => ['\\', c]
  }

  function SpellText(cs: seq<QChar>): string
    decreases |cs|
  {
    if cs == [] then "" else SpellOne(cs[0]) + SpellText(cs[1..])
  }

  function Spell(p: Piece): string
    decreases p
  {
    match p
    case Char(c) => [c]
    case Text(inside) => ['"'] + SpellText(inside) + ['"']
    case Group(kind, pieces) => [OpenOf(kind)] + SpellAll(pieces) + [CloseOf(kind)]
  }

  function SpellAll(ps: seq<Piece>): string
    decreases ps
  {
    if ps == [] then "" else Spell(ps[0]) + SpellAll(ps[1..])
  }

  /** A character that means nothing to the splitter, commas apart. */
  predicate IsOrdinary(c: char) {
    c != '"' && c != '(' && c != ')' && c != '[' && c != ']' && c != '{' && c != '}'
  }

  /** Quotes and backslashes stand behind a backslash only. */
  predicate AllInText(cs: seq<QChar>)
    decreases |cs|
  {
    cs != [] ==> (cs[0].Raw? ==> cs[0].c != '"' && cs[0].c != '\\') && AllInText(cs[1..])
  }

  predicate WellSpelled(p: Piece)
    decreases p
  {
    match p
    case Char(c) => IsOrdinary(c)
    case Text(inside) => AllInText(inside)
    case Group(_, pieces) => AllSpelled(pieces)
  }

  predicate AllSpelled(ps: seq<Piece>)
    decreases ps
  {
    ps != [] ==> WellSpelled(ps[0]) && AllSpelled(ps[1..])
  }

  /** No comma stands outside the strings and brackets. */
  predicate CommaFree(ps: seq<Piece>) {
    forall k :: 0 <= k < |ps| ==> ps[k] != Char(',')
  }

  lemma {:induction false} TextPassedOver(stack: string, part: string, cs: seq<QChar>, rest: string)
    requires AllInText(cs)
    ensures SplitFrom(State(stack, Quoted), part, SpellText(cs) + rest)
         == SplitFrom(State(stack, Quoted), part + SpellText(cs), rest)
    decreases |cs|
  {
    if cs == [] {
      assert SpellText(cs) + rest == rest && part + SpellText(cs) == part;
    } else {
      var first, more := SpellOne(cs[0]), SpellText(cs[1..]);
      OneInText(stack, part, cs[0], more + rest);
      TextPassedOver(stack, part + first, cs[1..], rest);
      Associate(first, more, rest);
      Associate(part, first, more);
    }
  }

  lemma Associate(a: string, b: string, c: string)
    ensures a + b + c == a + (b + c)
  {
  }

  lemma {:induction false} OneInText(stack: string, part: string, q: QChar, rest: string)
    requires q.Raw? ==> q.c != '"' && q.c != '\\'
    ensures SplitFrom(State(stack, Quoted), part, SpellOne(q) + rest)
         == SplitFrom(State(stack, Quoted), part + SpellOne(q), rest)
  {
    if q.Raw? {
      OneStep(State(stack, Quoted), part, q.c, rest);
    } else {
      OneStep(State(stack, Quoted), part, '\\', [q.c] + rest);
      OneStep(State(stack, Escaped), part + ['\\'], q.c, rest);
      assert SpellOne(q) + rest == ['\\'] + ([q.c] + rest) && part + ['\\'] + [q.c] == part + SpellOne(q);
    }
  }

  lemma {:induction false} OneStep(s: State, part: string, c: char, rest: string)
    requires !Separates(s, c) && Step(s, c).Some?
    ensures SplitFrom(s, part, [c] + rest) == SplitFrom(Step(s, c).value, part + [c], rest)
  {
    assert ([c] + rest)[1..] == rest;
  }

  lemma {:induction false} PiecePassedOver(stack: string, part: string, p: Piece, rest: string)
    requires WellSpelled(p) && (stack != "" || p != Char(','))
    ensures SplitFrom(State(stack, Plain), part, Spell(p) + rest)
         == SplitFrom(State(stack, Plain), part + Spell(p), rest)
    decreases p
  {
    match p
    case Char(c) =>
      OneStep(State(stack, Plain), part, c, rest);
    case Text(inside) =>
      StringPiecePassedOver(stack, part, inside, rest);
    case Group(kind, pieces) =>
      var open, s, close := OpenOf(kind), SpellAll(pieces), CloseOf(kind);
      PiecesPassedOver(stack + [open], part + [open], pieces, [close] + rest);
      GroupPassedOver(stack, part, kind, s, rest);
  }

  lemma {:induction false} StringPiecePassedOver(stack: string, part: string, inside: seq<QChar>, rest: string)
    requires AllInText(inside)
    ensures SplitFrom(State(stack, Plain), part, Spell(Text(inside)) + rest)
         == SplitFrom(State(stack, Plain), part + Spell(Text(inside)), rest)
  {
    var s := SpellText(inside);
    assert Spell(Text(inside)) + rest == ['"'] + (s + (['"'] + rest));
    OneStep(State(stack, Plain), part, '"', s + (['"'] + rest));
    TextPassedOver(stack, part + ['"'], inside, ['"'] + rest);
    OneStep(State(stack, Quoted), part + ['"'] + s, '"', rest);
    assert part + ['"'] + s + ['"'] == part + Spell(Text(inside));
  }

  lemma {:induction false} GroupPassedOver(stack: string, part: string, kind: Kind, s: string, rest: string)
    requires SplitFrom(State(stack + [OpenOf(kind)], Plain), part + [OpenOf(kind)], s + ([CloseOf(kind)] + rest))
          == SplitFrom(State(stack + [OpenOf(kind)], Plain), part + [OpenOf(kind)] + s, [CloseOf(kind)] + rest)
    ensures var group := [OpenOf(kind)] + s + [CloseOf(kind)];
            SplitFrom(State(stack, Plain), part, group + rest) == SplitFrom(State(stack, Plain), part + group, rest)
  {
    var open, close := OpenOf(kind), CloseOf(kind);
    assert [open] + s + [close] + rest == [open] + (s + ([close] + rest));
    OneStep(State(stack, Plain), part, open, s + ([close] + rest));
    assert (stack + [open])[..|stack|] == stack;
    OneStep(State(stack + [open], Plain), part + [open] + s, close, rest);
    assert part + [open] + s + [close] == part + ([open] + s + [close]);
  }

  lemma {:induction false} PiecesPassedOver(stack: string, part: string, ps: seq<Piece>, rest: string)
    requires AllSpelled(ps) && (stack != "" || CommaFree(ps))
    ensures SplitFrom(State(stack, Plain), part, SpellAll(ps) + rest)
         == SplitFrom(State(stack, Plain), part + SpellAll(ps), rest)
    decreases ps
  {
    if ps == [] {
      assert SpellAll(ps) + rest == rest && part + SpellAll(ps) == part;
    } else {
      var first, more := Spell(ps[0]), SpellAll(ps[1..]);
      assert SpellAll(ps) + rest == first + (more + rest) && part + first + more == part + SpellAll(ps);
      PiecePassedOver(stack, part, ps[0], more + rest);
      PiecesPassedOver(stack, part + first, ps[1..], rest);
    }
  }

  lemma TextInFront(q: QChar, cs: seq<QChar>, left: string)
    requires AllInText(cs) && (q.Raw? ==> q.c != '"' && q.c != '\\')
    ensures AllInText([q] + cs) && SpellText([q] + cs) + left == SpellOne(q) + (SpellText(cs) + left)
  {
    assert ([q] + cs)[1..] == cs;
    Associate(SpellOne(q), SpellText(cs), left);
  }

  /** A string is read up to the first quote that no backslash stands before. */
  lemma {:induction false} ReadsText(stack: string, part: string, rest: string)
      returns (cs: seq<QChar>, left: string)
    requires SplitFrom(State(stack, Quoted), part, rest).Ok?
    ensures AllInText(cs) && rest == SpellText(cs) + (['"'] + left)
    decreases |rest|
  {
    var c := rest[0];
    if c == '"' {
      cs, left := [], rest[1..];
    } else if c == '\\' {
      assert rest[1..] != "";
      cs, left := ReadsText(stack, part + [c] + [rest[1]], rest[1..][1..]);
      TextInFront(Slashed(rest[1]), cs, ['"'] + left);
      assert rest == SpellOne(Slashed(rest[1])) + rest[1..][1..];
      cs := [Slashed(rest[1])] + cs;
    } else {
      cs, left := ReadsText(stack, part + [c], rest[1..]);
      TextInFront(Raw(c), cs, ['"'] + left);
      assert rest == SpellOne(Raw(c)) + rest[1..];
      cs := [Raw(c)] + cs;
    }
  }

  lemma PieceInFront(p: Piece, ps: seq<Piece>, left: string)
    requires WellSpelled(p) && AllSpelled(ps)
    ensures AllSpelled([p] + ps) && SpellAll([p] + ps) + left == Spell(p) + (SpellAll(ps) + left)
    ensures CommaFree(ps) && p != Char(',') ==> CommaFree([p] + ps)
  {
    assert ([p] + ps)[1..] == ps;
    Associate(Spell(p), SpellAll(ps), left);
  }

  /** What stands before the comma, the end or the bracket that closes the innermost open one. */
  lemma {:induction false} ReadsPieces(stack: string, part: string, rest: string)
      returns (ps: seq<Piece>, left: string)
    requires SplitFrom(State(stack, Plain), part, rest).Ok?
    ensures AllSpelled(ps) && rest == SpellAll(ps) + left
    ensures if stack == "" then CommaFree(ps) && (left == "" || left[0] == ',')
            else left != "" && IsClose(left[0]) && stack[|stack| - 1] == Opener(left[0])
    decreases |rest|
  {
    ps, left := [], rest;
    if rest != "" && !IsClose(rest[0]) && !(stack == "" && rest[0] == ',') {
      var p, after := ReadsPiece(stack, part, rest);
      assert p != Char(',') || stack != "";
      PiecePassedOver(stack, part, p, after);
      ps, left := ReadsPieces(stack, part + Spell(p), after);
      PieceInFront(p, ps, left);
      ps := [p] + ps;
    }
  }

  lemma {:induction false} ReadsPiece(stack: string, part: string, rest: string) returns (p: Piece, left: string)
    requires SplitFrom(State(stack, Plain), part, rest).Ok?
    requires rest != "" && !IsClose(rest[0]) && !(stack == "" && rest[0] == ',')
    ensures WellSpelled(p) && rest == Spell(p) + left && Spell(p) != "" && (p.Char? ==> p.c == rest[0])
    decreases |rest|, 0
  {
    var c := rest[0];
    assert rest == [c] + rest[1..];
    if c == '"' {
      var cs;
      cs, left := ReadsText(stack, part + [c], rest[1..]);
      p := Text(cs);
    } else if IsOpen(c) {
      var kind := if c == '(' then Round else if c == '[' then Square else Curly;
      var ps, after := ReadsPieces(stack + [c], part + [c], rest[1..]);
      p, left := Group(kind, ps), after[1..];
      assert after == [CloseOf(kind)] + left;
    } else {
      p, left := Char(c), rest[1..];
    }
  }

  /** A part is spelled by pieces, at least one, with no comma outside strings and brackets. */
  ghost predicate IsPart(p: string) {
    exists ps :: PartOf(p, ps)
  }

  predicate PartOf(p: string, ps: seq<Piece>) {
    ps != [] && AllSpelled(ps) && CommaFree(ps) && p == SpellAll(ps)
  }

  lemma {:induction false} ItemsAreParts(p: string)
    ensures Item(p) <==> IsPart(p)
  {
    if Item(p) {
      var ps, left := ReadsPieces("", "", p);
      PiecesPassedOver("", "", ps, left);
      assert "" + SpellAll(ps) == SpellAll(ps);
      if left != "" {
        SeparatorMakesMore(START, SpellAll(ps), left);
      }
      assert SpellAll(ps) + "" == SpellAll(ps);
      assert PartOf(p, ps);
    }
    if IsPart(p) {
      var ps :| PartOf(p, ps);
      PiecesPassedOver("", "", ps, "");
      assert "" + SpellAll(ps) == SpellAll(ps) == SpellAll(ps) + "";
      SpellsSomething(ps[0]);
    }
  }

  lemma SpellsSomething(p: Piece)
    ensures Spell(p) != ""
  {
  }

  /** Splitting undoes joining: a value has these parts exactly when it is the join of these, each well spelled. */
  lemma {:induction false} SplitsExactly(value: string, parts: seq<string>)
    ensures Split(value) == Ok(parts) <==> value == Join(parts) && forall k :: 0 <= k < |parts| ==> IsPart(parts[k])
  {
    SplitsIntoItems(value, parts);
    forall k | 0 <= k < |parts|
      ensures Item(parts[k]) <==> IsPart(parts[k])
    {
      ItemsAreParts(parts[k]);
    }
  }

  // ---------------------------------------------------------------- `_parse_review_param_map`

  datatype MapError = Unsplit(cause: Error) | Malformed | Duplicate

  datatype MapResult = Params(params: map<string, string>) | Bad(why: MapError)

  /** `[A-Za-z][A-Za-z0-9]*` */
  predicate IsKey(key: string) {
    key != "" && IsLetter(key[0]) && forall i :: 0 <= i < |key| ==> IsLetter(key[i]) || IsDigit(key[i])
  }

  /** A letter, then letters and digits. */
  lemma {:induction false} KeyGrows(key: string, c: char)
    ensures !IsKey("")
    ensures IsKey([c]) <==> IsLetter(c)
    ensures key != "" ==> (IsKey(key + [c]) <==> IsKey(key) && (IsLetter(c) || IsDigit(c)))
  {
    var more := key + [c];
    if IsKey(more) && key != "" {
      assert forall i :: 0 <= i < |key| ==> key[i] == more[i];
    }
    assert more[|key|] == c;
  }

  /** `item.partition("=")`: the position of the first "=", or the length. */
  function EqualsAt(item: string): (n: nat)
    ensures n <= |item| && (n < |item| ==> item[n] == '=')
    ensures forall i :: 0 <= i < n ==> item[i] != '='
    decreases |item|
  {
    if item == "" || item[0] == '=' then 0 else EqualsAt(item[1..]) + 1
  }

  predicate IsEntry(item: string) {
    var n := EqualsAt(item);
    n < |item| - 1 && IsKey(item[..n])
  }

  function Collect(m: map<string, string>, items: seq<string>): MapResult
    decreases |items|
  {
    if items == [] then Params(m)
    else if !IsEntry(items[0]) then Bad(Malformed)
    else
      var n := EqualsAt(items[0]);
      if items[0][..n] in m then Bad(Duplicate)
      else Collect(m[items[0][..n] := items[0][n + 1..]], items[1..])
  }

  function ParamMap(value: string): MapResult {
    match Split(value)
    case Err(e) => Bad(Unsplit(e))
    case Ok(items) => Collect(map[], items)
  }

  method ParseParamMap(value: string) returns (r: MapResult)
    ensures r == ParamMap(value)
  {
    var items := SplitTopLevel(value);
    if items.Err? {
      return Bad(Unsplit(items.error));
    }
    var result: map<string, string> := map[];
    ghost var left := items.value;
    for k := 0 to |items.value|
      invariant left == items.value[k..]
      invariant Collect(result, left) == ParamMap(value)
    {
      var item := items.value[k];
      var n := EqualsAt(item);
      if n >= |item| - 1 || !IsKey(item[..n]) {
        return Bad(Malformed);
      }
      if item[..n] in result {
        return Bad(Duplicate);
      }
      result := result[item[..n] := item[n + 1..]];
      left := left[1..];
    }
    r := Params(result);
  }

  datatype Entry = Entry(key: string, raw: string)

  function Line(e: Entry): string {
    e.key + "=" + e.raw
  }

  function Lines(entries: seq<Entry>): (lines: seq<string>)
    ensures |lines| == |entries| && forall k :: 0 <= k < |lines| ==> lines[k] == Line(entries[k])
  {
    seq(|entries|, k requires 0 <= k < |entries| => Line(entries[k]))
  }

  ghost predicate Printable(entries: seq<Entry>) {
    && (forall k :: 0 <= k < |entries| ==> IsKey(entries[k].key) && Item(entries[k].raw))
    && (forall j, k :: 0 <= j < k < |entries| ==> entries[j].key != entries[k].key)
  }

  function Pairs(m: map<string, string>, entries: seq<Entry>): map<string, string>
    decreases |entries|
  {
    if entries == [] then m else Pairs(m[entries[0].key := entries[0].raw], entries[1..])
  }

  lemma {:induction false} EqualsIs(item: string, n: nat)
    requires n < |item| && item[n] == '=' && forall i :: 0 <= i < n ==> item[i] != '='
    ensures EqualsAt(item) == n
  {
  }

  lemma LineIsEntry(e: Entry)
    requires IsKey(e.key) && e.raw != ""
    ensures IsEntry(Line(e)) && Line(e)[..EqualsAt(Line(e))] == e.key && Line(e)[EqualsAt(Line(e)) + 1..] == e.raw
  {
    EqualsIs(Line(e), |e.key|);
  }

  /** What has been passed does not matter to a single part. */
  lemma {:induction false} PartIsCarried(s: State, p: string, q: string, rest: string)
    requires rest != "" && SplitFrom(s, p, rest) == Ok([p + rest])
    ensures SplitFrom(s, q, rest) == Ok([q + rest])
    decreases |rest|
  {
    SeparatorMakesMore(s, p, rest);
    var next, c := Step(s, rest[0]).value, rest[0];
    assert p + [c] + rest[1..] == p + rest && q + [c] + rest[1..] == q + rest;
    if rest[1..] == "" {
      assert rest == [c];
    } else {
      PartIsCarried(next, p + [c], q + [c], rest[1..]);
    }
  }

  lemma {:induction false} KeyPassedOver(part: string, key: string, rest: string)
    requires forall i :: 0 <= i < |key| ==> IsLetter(key[i]) || IsDigit(key[i]) || key[i] == '='
    ensures SplitFrom(START, part, key + rest) == SplitFrom(START, part + key, rest)
    decreases |key|
  {
    if key == "" {
      assert key + rest == rest && part + key == part;
    } else {
      var c := key[0];
      assert (key + rest)[0] == c && (key + rest)[1..] == key[1..] + rest;
      assert part + [c] + key[1..] == part + key;
      KeyPassedOver(part + [c], key[1..], rest);
    }
  }

  lemma LineIsItem(e: Entry)
    requires IsKey(e.key) && Item(e.raw)
    ensures Item(Line(e))
  {
    RawIsItem(e.key + "=", e.raw);
  }

  lemma {:induction false} CollectsPairs(m: map<string, string>, entries: seq<Entry>)
    requires Printable(entries) && forall k :: 0 <= k < |entries| ==> entries[k].key !in m
    ensures Collect(m, Lines(entries)) == Params(Pairs(m, entries))
    decreases |entries|
  {
    if entries != [] {
      LineIsEntry(entries[0]);
      assert Lines(entries)[1..] == Lines(entries[1..]);
      CollectsPairs(m[entries[0].key := entries[0].raw], entries[1..]);
    }
  }

  /** Distinct keys with item values, printed `key=value` and joined, are read back as that map. */
  lemma ParamMapRoundTrip(entries: seq<Entry>)
    requires Printable(entries)
    ensures ParamMap(Join(Lines(entries))) == Params(Pairs(map[], entries))
  {
    forall k | 0 <= k < |entries|
      ensures Item(Lines(entries)[k])
    {
      LineIsItem(entries[k]);
    }
    JoinUndoesSplit(Lines(entries));
    CollectsPairs(map[], entries);
  }

  /** The map of distinct keys holds each entry and nothing else. */
  lemma {:induction false} PairsAre(m: map<string, string>, entries: seq<Entry>)
    requires forall j, k :: 0 <= j < k < |entries| ==> entries[j].key != entries[k].key
    ensures var all := Pairs(m, entries);
      && (forall k :: 0 <= k < |entries| ==> entries[k].key in all && all[entries[k].key] == entries[k].raw)
      && (forall key :: key in all ==> key in m || exists k :: 0 <= k < |entries| && entries[k].key == key)
      && (forall key :: key in m && (forall k :: 0 <= k < |entries| ==> entries[k].key != key) ==>
            key in all && all[key] == m[key])
    decreases |entries|
  {
    if entries != [] {
      PairsAre(m[entries[0].key := entries[0].raw], entries[1..]);
    }
  }

  function EntryOf(item: string): Entry {
    var n := EqualsAt(item);
    if n < |item| then Entry(item[..n], item[n + 1..]) else Entry(item, "")
  }

  lemma EntryIsLine(item: string)
    requires Item(item) && IsEntry(item)
    ensures var e := EntryOf(item); Line(e) == item && IsKey(e.key) && Item(e.raw)
  {
    var e := EntryOf(item);
    var k := e.key + "=";
    assert item == k + e.raw && e.raw != "";
    RawIsItem(k, e.raw);
  }

  lemma RawIsItem(k: string, raw: string)
    requires forall i :: 0 <= i < |k| ==> IsLetter(k[i]) || IsDigit(k[i]) || k[i] == '='
    requires raw != ""
    ensures Item(k + raw) <==> Item(raw)
  {
    assert "" + k == k && "" + raw == raw;
    KeyPassedOver("", k, raw);
    if Item(k + raw) {
      PartIsCarried(START, k, "", raw);
    }
    if Item(raw) {
      PartIsCarried(START, "", k, raw);
    }
  }

  /** One more entry in front, with a key that none of the others has. */
  lemma EntryInFront(e: Entry, more: seq<Entry>, items: seq<string>)
    requires items != [] && Line(e) == items[0] && Lines(more) == items[1..]
    requires IsKey(e.key) && Item(e.raw) && Printable(more)
    requires forall k :: 0 <= k < |more| ==> more[k].key != e.key
    ensures Lines([e] + more) == items && Printable([e] + more)
  {
    var all := [e] + more;
    forall k | 0 <= k < |all|
      ensures Line(all[k]) == items[k] && IsKey(all[k].key) && Item(all[k].raw)
    {
      if k > 0 {
        assert all[k] == more[k - 1] && items[k] == items[1..][k - 1];
        assert Lines(more)[k - 1] == Line(more[k - 1]);
      }
    }
    assert |Lines(more)| == |more|;
  }

  lemma {:induction false} CollectAccepts(m: map<string, string>, items: seq<string>) returns (entries: seq<Entry>)
    requires AllItems(items) && Collect(m, items).Params?
    ensures Lines(entries) == items && Printable(entries)
    ensures forall k :: 0 <= k < |entries| ==> entries[k].key !in m
    decreases |items|
  {
    if items == [] {
      entries := [];
    } else {
      var e := EntryOf(items[0]);
      EntryIsLine(items[0]);
      assert AllItems(items[1..]);
      var more := CollectAccepts(m[e.key := e.raw], items[1..]);
      EntryInFront(e, more, items);
      entries := [e] + more;
    }
  }

  /** Nothing else is accepted: a value that yields a map is the print of entries with distinct keys. */
  lemma ParamMapAccepts(value: string) returns (entries: seq<Entry>)
    requires ParamMap(value).Params?
    ensures Printable(entries) && value == Join(Lines(entries))
    ensures ParamMap(value) == Params(Pairs(map[], entries))
  {
    SplitUndoesJoin(value);
    entries := CollectAccepts(map[], Split(value).value);
    CollectsPairs(map[], entries);
  }
}
