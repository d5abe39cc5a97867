/** The variables a config's text names: `${NAME}` and `${NAME:-default}`, where `$${` is the text `${`
    and a `${` that begins no reference is passed over. */
module References {
  import opened Text

  /** One reference: where it stands in the text, and the name it gives. */
  datatype Reference = Reference(start: nat, stop: nat, name: string)

  predicate IsLetter(c: char) { 'a' <= c <= 'z' || 'A' <= c <= 'Z' }

  /** A name as a shell would take it: a letter or `_`, and then digits too. */
  predicate IsName(name: string) {
    && name != []
    && (IsLetter(name[0]) || name[0] == '_')
    && forall c | c in name :: IsLetter(c) || IsDigit(c) || c == '_'
  }

  /** A name by its characters' codes: the ASCII letters, the digits and the underscore, no digit first. */
  lemma NamesAre(name: string)
    ensures IsName(name) <==>
              && name != "" && !(48 <= name[0] as int <= 57)
              && forall c | c in name ::
                   65 <= c as int <= 90 || 97 <= c as int <= 122 || 48 <= c as int <= 57 || c as int == 95
  {
    assert name != "" ==> name[0] in name;
  }

  /** The name in what's between `${` and `}`: all of it, or what stands ahead of a `:-`. */
  function NameOf(inside: string): Option<string> {
    var name := match SplitOnce(inside, ":-") case Some((before, _)) => before case None => inside;
    if IsName(name) then Some(name) else None
  }

  /** What a text that follows a `$` begins with. */
  datatype Opening =
    | Escape                              // `${`: the `$$`{` that names nothing
    | Named(length: nat, name: string)    // `{inside}`: a reference, and the length of it
    | Neither

  function OpeningOf(after: string): (r: Opening)
    ensures r.Escape? ==> |after| >= 2
    ensures r.Named? ==> 2 <= r.length <= |after|
  {
    if "${" <= after then Escape
    else if !("{" <= after) then Neither
    else
      match SplitOnce(after[1..], "}")
      case None => Neither
      case Some((inside, _)) =>
        match NameOf(inside)
        case None => Neither
        case Some(name) => Named(|inside| + 2, name)
  }

  /** What the first `$` of `rest` comes to: nothing, a stretch passed over, or a reference. */
  datatype Move = Done | Skip(length: nat) | Found(start: nat, stop: nat, name: string)

  function MoveOf(rest: string): (m: Move)
    ensures m.Skip? ==> 0 < m.length <= |rest|
    ensures m.Found? ==> m.start < m.stop <= |rest|
  {
    match Find(rest, "$")
    case None => Done
    case Some(dollar) =>
      match OpeningOf(rest[dollar + 1..])
      case Escape => Skip(dollar + 3)
      case Named(length, name) => Found(dollar, dollar + 1 + length, name)
      case Neither => Skip(dollar + 1)
  }

  /** The references of `rest`, which stands at `at` in the text. */
  function Scan(rest: string, at: nat): seq<Reference>
    decreases |rest|
  {
    match MoveOf(rest)
    case Done => []
    case Skip(length) => Scan(rest[length..], at + length)
    case Found(start, stop, name) => [Reference(at + start, at + stop, name)] + Scan(rest[stop..], at + stop)
  }

  method ReferencesIn(text: string) returns (found: seq<Reference>)
    ensures found == Scan(text, 0)
  {
    hide MoveOf;
    found := [];
    var rest := text;
    while true
      invariant |rest| <= |text|
      invariant found + Scan(rest, |text| - |rest|) == Scan(text, 0)
      decreases |rest|
    {
      var at := |text| - |rest|;
      match MoveOf(rest) {
        case Done =>
          Empty(found);
          return;
        case Skip(length) =>
          rest := rest[length..];
        case Found(start, stop, name) =>
          Assoc(found, [Reference(at + start, at + stop, name)], Scan(rest[stop..], at + stop));
          found := found + [Reference(at + start, at + stop, name)];
          rest := rest[stop..];
      }
    }
  }

  // ----- any text: the spans found -----

  function Inside(name: string, default: Option<string>): string {
    name + (if default.Some? then ":-" + default.value else "")
  }

  /** How a reference is written. */
  function Written(name: string, default: Option<string>): string {
    "${" + Inside(name, default) + "}"
  }

  lemma WrittenStarts(name: string, default: Option<string>)
    ensures Written(name, default) == "$" + ("{" + Inside(name, default) + "}")
    ensures Written(name, default)[1..] == "{" + Inside(name, default) + "}"
  {
    Assoc("$", "{", Inside(name, default));
    Assoc("$", "{" + Inside(name, default), "}");
    Seam("$", "{" + Inside(name, default) + "}");
  }

  predicate WellFormed(name: string, default: Option<string>) {
    IsName(name) && (default.Some? ==> '}' !in default.value)
  }

  lemma NameHoldsNo(name: string, c: char)
    requires IsName(name) && !IsLetter(c) && !IsDigit(c) && c != '_'
    ensures c !in name
  {}

  lemma NameOfInside(name: string, default: Option<string>)
    requires IsName(name)
    ensures NameOf(Inside(name, default)) == Some(name)
  {
    NameHoldsNo(name, ':');
    match default
    case Some(value) =>
      SplitOncePair(name, ":-", value);
      Assoc(name, ":-", value);
    case None =>
      Empty(name);
      forall j: nat | j + 2 <= |name| ensures !OccursAt(name, ":-", j) {
        assert name[j..j + 2][0] == name[j];
      }
  }

  /** What's between the braces of a reference, read back as a name and a default. */
  lemma InsideOf(inside: string) returns (default: Option<string>)
    requires NameOf(inside).Some? && '}' !in inside
    ensures WellFormed(NameOf(inside).value, default) && inside == Inside(NameOf(inside).value, default)
  {
    match SplitOnce(inside, ":-")
    case Some((name, value)) =>
      default := Some(value);
      Assoc(name, ":-", value);
    case None =>
      default := None;
      Empty(inside);
  }

  /** A text after a `$` opens a reference exactly when it begins with a well-formed one, less its `$`. */
  lemma OpensExactly(name: string, default: Option<string>, rest: string)
    requires WellFormed(name, default)
    ensures OpeningOf(Written(name, default)[1..] + rest) == Named(|Written(name, default)| - 1, name)
  {
    hide NameOf, Find;
    var inside := Inside(name, default);
    WrittenStarts(name, default);
    Assoc("{", inside + "}", rest);
    Assoc("{", inside, "}");
    Seam("{", inside + "}" + rest);
    NameHoldsNo(name, '}');
    NameOfInside(name, default);
    SplitOnceChar(inside, '}', rest);
  }

  lemma OpenedIsWritten(after: string) returns (default: Option<string>)
    requires OpeningOf(after).Named?
    ensures WellFormed(OpeningOf(after).name, default)
    ensures "$" + after[..OpeningOf(after).length] == Written(OpeningOf(after).name, default)
  {
    hide NameOf, Find, IsName;
    var (inside, rest) := SplitOnce(after[1..], "}").value;
    SplitOnceFirst(after[1..], '}');
    default := InsideOf(inside);
    WrittenStarts(OpeningOf(after).name, default);
    Assoc("{", inside + "}", rest);
    Assoc("{", inside, "}");
    Seam("{" + inside + "}", rest);
    Seam("{", after[1..]);
    assert after == "{" + after[1..];
  }

  /** `r` stands in `text` as it's written, well formed. */
  ghost predicate Stands(text: string, r: Reference) {
    && r.start < r.stop <= |text|
    && exists default :: WellFormed(r.name, default) && text[r.start..r.stop] == Written(r.name, default)
  }

  lemma FoundIsWritten(rest: string) returns (default: Option<string>)
    requires MoveOf(rest).Found?
    ensures var m := MoveOf(rest); WellFormed(m.name, default) && rest[m.start..m.stop] == Written(m.name, default)
  {
    hide OpeningOf, Written, WellFormed;
    var m := MoveOf(rest);
    default := OpenedIsWritten(rest[m.start + 1..]);
    assert rest[m.start..m.start + 1] == "$";
    assert rest[m.start] == rest[m.start..m.start + 1][0];
    OneAhead(rest, m.start, m.stop);
  }

  ghost predicate Apart(text: string, from: nat, found: seq<Reference>) {
    && (forall r | r in found :: from <= r.start && Stands(text, r))
    && (forall i | 0 <= i < |found| - 1 :: found[i].stop <= found[i + 1].start)
  }

  lemma NoSpan(text: string, from: nat)
    ensures Apart(text, from, [])
  {}

  lemma Later(text: string, from: nat, from': nat, found: seq<Reference>)
    requires from <= from' && Apart(text, from', found)
    ensures Apart(text, from, found)
  {}

  lemma OneSpanMore(text: string, from: nat, r: Reference, found: seq<Reference>)
    requires Stands(text, r) && from <= r.start && Apart(text, r.stop, found)
    ensures Apart(text, from, [r] + found)
  {
    assert found != [] ==> found[0] in found;
  }

  /** The spans found in any text are well formed, in order, and apart. */
  lemma {:induction false} SpansAreApart(text: string, rest: string, at: nat)
    requires at <= |text| && rest == text[at..]
    ensures Apart(text, at, Scan(rest, at))
    decreases |rest|
  {
    hide MoveOf, Apart, Written, WellFormed;
    match MoveOf(rest)
    case Done => NoSpan(text, at);
    case Skip(length) =>
      SpansAreApart(text, rest[length..], at + length);
      Later(text, at, at + length, Scan(rest[length..], at + length));
    case Found(start, stop, name) =>
      var r := Reference(at + start, at + stop, name);
      var default := FoundIsWritten(rest);
      assert text[r.start..r.stop] == rest[start..stop];
      SpansAreApart(text, rest[stop..], at + stop);
      OneSpanMore(text, at, r, Scan(rest[stop..], at + stop));
  }

  // ----- the grammar the scanner reads -----

  /** A text in parts: text without a `$`, the escape `$${`, a reference, and a `$` that is none of these. */
  datatype Token = Literal(text: string) | Escaped | Ref(name: string, default: Option<string>) | Dollar

  function Rendered(token: Token): string {
    match token
    case Literal(text) => text
    case Escaped => "$${"
    case Ref(name, default) => Written(name, default)
    case Dollar => "$"
  }

  function Render(tokens: seq<Token>): string {
    if tokens == [] then [] else Rendered(tokens[0]) + Render(tokens[1..])
  }

  /** A part is what it says: a lone `$` opens nothing with the text after it. */
  predicate IsProper(token: Token, after: string) {
    match token
    case Literal(text) => '$' !in text
    case Escaped => true
    case Ref(name, default) => WellFormed(name, default)
    case Dollar => OpeningOf(after) == Neither
  }

  predicate Proper(tokens: seq<Token>) {
    tokens != [] ==> IsProper(tokens[0], Render(tokens[1..])) && Proper(tokens[1..])
  }

  /** The references among the parts, where they stand in a text the parts begin at `at` of. */
  function RefsOf(tokens: seq<Token>, at: nat): seq<Reference> {
    if tokens == [] then []
    else
      var stop := at + |Rendered(tokens[0])|;
      (if tokens[0].Ref? then [Reference(at, stop, tokens[0].name)] else []) + RefsOf(tokens[1..], stop)
  }

  lemma FindPastLiteral(literal: string, rest: string)
    requires '$' !in literal
    ensures Find(literal + rest, "$") ==
            match Find(rest, "$") { case None => None case Some(i) => Some(|literal| + i) }
  {
    var s := literal + rest;
    forall j: nat | j < |literal| ensures !OccursAt(s, "$", j) {
      assert s[j] == literal[j] && s[j..j + 1] == [s[j]];
    }
    forall j: nat ensures OccursAt(s, "$", |literal| + j) <==> OccursAt(rest, "$", j) {
      if j < |rest| {
        assert s[|literal| + j..|literal| + j + 1] == rest[j..j + 1];
      }
    }
    match Find(rest, "$")
    case None =>
      assert forall j: nat :: OccursAt(s, "$", j) ==> OccursAt(rest, "$", j - |literal|);
    case Some(i) =>
      forall j: nat | j < |literal| + i ensures !OccursAt(s, "$", j) {
        if j >= |literal| {
          assert OccursAt(s, "$", |literal| + (j - |literal|)) <==> OccursAt(rest, "$", j - |literal|);
        }
      }
      FindIs(s, "$", |literal| + i);
  }

  function Moved(past: nat, m: Move): Move {
    match m
    case Done => Done
    case Skip(length) => Skip(past + length)
    case Found(start, stop, name) => Found(past + start, past + stop, name)
  }

  lemma MovePastLiteral(literal: string, rest: string)
    requires '$' !in literal
    ensures MoveOf(literal + rest) == Moved(|literal|, MoveOf(rest))
  {
    hide OpeningOf;
    FindPastLiteral(literal, rest);
    match Find(rest, "$")
    case None =>
    case Some(dollar) =>
      PastSeam(literal, rest, dollar + 1);
      assert (literal + rest)[|literal| + dollar + 1..] == rest[dollar + 1..];
  }

  /** A scan passes over text without a `$`. */
  lemma ScanPastLiteral(literal: string, rest: string, at: nat)
    requires '$' !in literal
    ensures Scan(literal + rest, at) == Scan(rest, at + |literal|)
  {
    hide MoveOf;
    MovePastLiteral(literal, rest);
    match MoveOf(rest)
    case Done =>
    case Skip(length) => PastSeam(literal, rest, length);
    case Found(start, stop, name) => PastSeam(literal, rest, stop);
  }

  lemma MoveAtDollar(after: string)
    ensures MoveOf("$" + after) ==
            match OpeningOf(after)
            case Escape => Skip(3)
            case Named(length, name) => Found(0, 1 + length, name)
            case Neither => Skip(1)
  {
    hide OpeningOf, Find;
    var rest := "$" + after;
    Seam("$", after);
    assert rest[0..1] == "$";
    FindIs(rest, "$", 0);
  }

  lemma ScanAtReference(name: string, default: Option<string>, rest: string, at: nat)
    requires WellFormed(name, default)
    ensures var stop := at + |Written(name, default)|;
            Scan(Written(name, default) + rest, at) == [Reference(at, stop, name)] + Scan(rest, stop)
  {
    hide MoveOf, Written, OpeningOf;
    var written := Written(name, default);
    WrittenStarts(name, default);
    OpensExactly(name, default, rest);
    assert written == "$" + written[1..];
    Assoc("$", written[1..], rest);
    MoveAtDollar(written[1..] + rest);
    Seam(written, rest);
  }

  lemma ScanAtEscape(rest: string, at: nat)
    ensures Scan("$${" + rest, at) == Scan(rest, at + 3)
  {
    hide MoveOf;
    assert "$${" == "$" + "${";
    Assoc("$", "${", rest);
    MoveAtDollar("${" + rest);
    Seam("$${", rest);
  }

  lemma ScanAtDollar(rest: string, at: nat)
    requires OpeningOf(rest) == Neither
    ensures Scan("$" + rest, at) == Scan(rest, at + 1)
  {
    hide MoveOf, OpeningOf;
    MoveAtDollar(rest);
    Seam("$", rest);
  }

  lemma ScanNothing(at: nat)
    ensures Scan([], at) == []
  {
    assert MoveOf([]) == Done;
  }

  /** Scanning what a list of parts renders to gives back exactly its references, in order. */
  lemma {:induction false} ScanReadsBack(tokens: seq<Token>, at: nat)
    requires Proper(tokens)
    ensures Scan(Render(tokens), at) == RefsOf(tokens, at)
  {
    hide Scan, Written, WellFormed, OpeningOf;
    if tokens == [] {
      ScanNothing(at);
    } else {
      var rest := Render(tokens[1..]);
      ScanReadsBack(tokens[1..], at + |Rendered(tokens[0])|);
      Empty(RefsOf(tokens[1..], at + |Rendered(tokens[0])|));
      match tokens[0]
      case Literal(literal) => ScanPastLiteral(literal, rest, at);
      case Escaped => ScanAtEscape(rest, at);
      case Ref(name, default) => ScanAtReference(name, default, rest, at);
      case Dollar => ScanAtDollar(rest, at);
    }
  }

  lemma OneTokenMore(token: Token, rest: seq<Token>)
    requires Proper(rest) && IsProper(token, Render(rest))
    ensures Proper([token] + rest) && Render([token] + rest) == Rendered(token) + Render(rest)
  {
    assert ([token] + rest)[1..] == rest;
  }

  /** Every text is the rendering of some list of parts, so the grammar covers all the scanner is given. */
  lemma {:induction false} EveryTextHasParts(text: string) returns (tokens: seq<Token>)
    ensures Proper(tokens) && Render(tokens) == text
    decreases |text|
  {
    if text == [] {
      return [];
    }
    hide IsProper, Rendered;
    var token, length := FirstPart(text);
    var rest := EveryTextHasParts(text[length..]);
    tokens := [token] + rest;
    OneTokenMore(token, rest);
    Cut(text, length);
  }

  lemma FirstPart(text: string) returns (token: Token, length: nat)
    requires text != []
    ensures 0 < length <= |text| && IsProper(token, text[length..]) && Rendered(token) == text[..length]
  {
    token, length := Dollar, 1;
    if text[0] != '$' {
      token := Literal([text[0]]);
    } else if OpeningOf(text[1..]).Escape? {
      token, length := Escaped, 3;
    } else if OpeningOf(text[1..]).Named? {
      hide OpeningOf, Written, WellFormed;
      var default := OpenedIsWritten(text[1..]);
      length := 1 + OpeningOf(text[1..]).length;
      token := Ref(OpeningOf(text[1..]).name, default);
      OneAhead(text, 0, length);
    }
  }

  /** On any text, what is found is the references of the parts the text is rendered from, whichever
      parts those are. */
  lemma ScanIsTheGrammar(text: string, found: seq<Reference>)
    ensures found == Scan(text, 0)
       <==> exists tokens :: Proper(tokens) && Render(tokens) == text && found == RefsOf(tokens, 0)
  {
    var tokens := EveryTextHasParts(text);
    ScanReadsBack(tokens, 0);
    if tokens' :| Proper(tokens') && Render(tokens') == text && found == RefsOf(tokens', 0) {
      ScanReadsBack(tokens', 0);
    }
  }

  // ----- the key's variable -----

  /** The name in a text that is one reference from end to end. */
  function KeyName(text: string): Option<string> {
    var found := Scan(text, 0);
    if |found| == 1 && found[0].start == 0 && found[0].stop == |text| then Some(found[0].name) else None
  }

  /** A key's text names a variable exactly when the text is one whole, well-formed reference. */
  lemma KeyNameIsOneReference(text: string, name: string)
    ensures KeyName(text) == Some(name) <==> exists default :: WellFormed(name, default) && text == Written(name, default)
  {
    if KeyName(text) == Some(name) {
      SpansAreApart(text, text, 0);
      var r := Scan(text, 0)[0];
      assert Stands(text, r) && text[r.start..r.stop] == text;
    }
    if default :| WellFormed(name, default) && text == Written(name, default) {
      Empty(text);
      ScanAtReference(name, default, [], 0);
      ScanNothing(|text|);
    }
  }
}
