/** Texts as sequences of characters, and the few library operations on them that the modelled code
    calls: searching, splitting, trimming and decimal numbers. */
module Text {

  datatype Option<+T> = None | Some(value: T)

  lemma Assoc<T>(a: seq<T>, b: seq<T>, c: seq<T>)
    ensures (a + b) + c == a + (b + c)
  {}

  lemma Cut<T>(s: seq<T>, i: nat)
    requires i <= |s|
    ensures s[..i] + s[i..] == s
  {}

  /** Where two sequences meet. */
  lemma Seam<T>(a: seq<T>, b: seq<T>)
    ensures (a + b)[..|a|] == a && (a + b)[|a|..] == b
    ensures b != [] ==> (a + b)[|a|] == b[0] && (a + b)[|a| + 1..] == b[1..]
  {}

  lemma PastSeam<T>(a: seq<T>, b: seq<T>, i: nat)
    requires i <= |b|
    ensures (a + b)[|a| + i..] == b[i..]
  {}

  lemma OneAhead<T>(s: seq<T>, i: nat, j: nat)
    requires i < j <= |s|
    ensures s[i..j] == [s[i]] + s[i + 1..][..j - i - 1]
  {}

  lemma Empty<T>(a: seq<T>)
    ensures a + [] == a && [] + a == a
  {}

  /** `sub` stands in `s` at `i`. */
  predicate OccursAt(s: string, sub: string, i: nat) {
    i + |sub| <= |s| && s[i..i + |sub|] == sub
  }

  predicate Occurs(s: string, sub: string) {
    exists i: nat | i <= |s| :: OccursAt(s, sub, i)
  }

  /** Where `sub` first stands in `s`. */
  function Find(s: string, sub: string): (r: Option<nat>)
    ensures r.Some? ==> OccursAt(s, sub, r.value)
    ensures r.Some? ==> forall j: nat | j < r.value :: !OccursAt(s, sub, j)
    ensures r.None? ==> forall j: nat :: !OccursAt(s, sub, j)
  {
    if sub <= s then
      Some(0)
    else if s == [] then
      None
    else
      var rest := Find(s[1..], sub);
      assert forall j: nat | 0 < j :: OccursAt(s, sub, j) ==> OccursAt(s[1..], sub, j - 1) by {
        forall j: nat | 0 < j && OccursAt(s, sub, j) ensures OccursAt(s[1..], sub, j - 1) {
          assert s[1..][j - 1..j - 1 + |sub|] == s[j..j + |sub|];
        }
      }
      assert rest.Some? ==> s[1..][rest.value..rest.value + |sub|] == s[rest.value + 1..rest.value + 1 + |sub|];
      if rest.Some? then Some(rest.value + 1) else None
  }

  /** The first occurrence is the one with none before it. */
  lemma FindIs(s: string, sub: string, i: nat)
    requires OccursAt(s, sub, i)
    requires forall j: nat | j < i :: !OccursAt(s, sub, j)
    ensures Find(s, sub) == Some(i)
  {
    assert Find(s, sub).Some?;
  }

  /** `split_once`: what stands before and after the first `sep`. */
  function SplitOnce(s: string, sep: string): (r: Option<(string, string)>)
    ensures r.Some? ==> s == r.value.0 + sep + r.value.1
  {
    var at := Find(s, sep);
    if at.None? then None else Some((s[..at.value], s[at.value + |sep|..]))
  }

  /** Splitting at a one-character separator that the first part holds none of. */
  lemma SplitOnceChar(a: string, c: char, b: string)
    requires c !in a
    ensures SplitOnce(a + [c] + b, [c]) == Some((a, b))
  {
    var s := a + [c] + b;
    assert s[|a|..|a| + 1] == [c];
    forall j: nat | j < |a| ensures !OccursAt(s, [c], j) {
      assert a[j] == s[j] == s[j..j + 1][0];
    }
    FindIs(s, [c], |a|);
    assert s[|a| + 1..] == b;
  }

  /** A two-character separator after a part that holds none of its first character. */
  lemma SplitOncePair(a: string, sep: string, b: string)
    requires |sep| == 2 && sep[0] !in a
    ensures SplitOnce(a + sep + b, sep) == Some((a, b))
  {
    var s := a + sep + b;
    assert s[|a|..|a| + 2] == sep;
    forall j: nat | j < |a| ensures !OccursAt(s, sep, j) {
      assert a[j] == s[j] == s[j..j + 2][0];
    }
    FindIs(s, sep, |a|);
    assert s[|a| + 2..] == b;
  }

  /** What stands before the first `sep` holds no `sep`. */
  lemma SplitOnceFirst(s: string, c: char)
    ensures SplitOnce(s, [c]).Some? ==> c !in SplitOnce(s, [c]).value.0
    ensures SplitOnce(s, [c]).None? <==> c !in s
  {
    var at := Find(s, [c]);
    forall i: nat | i < |s| && s[i] == c ensures OccursAt(s, [c], i) {
      assert s[i..i + 1] == [c];
    }
    if at.Some? {
      assert s[at.value..at.value + 1][0] == c;
    }
  }

  // ----- splitting at every separator -----

  /** `split` at every character that `sep` holds of: always one part more than separators. */
  function SplitWhere(s: string, sep: char -> bool): (parts: seq<string>)
    ensures |parts| >= 1
  {
    if s == [] then
      [[]]
    else
      var rest := SplitWhere(s[1..], sep);
      if sep(s[0]) then [[]] + rest else [[s[0]] + rest[0]] + rest[1..]
  }

  lemma {:induction false} SplitWhereWhole(s: string, sep: char -> bool)
    requires forall c | c in s :: !sep(c)
    ensures SplitWhere(s, sep) == [s]
  {
    if s != [] {
      SplitWhereWhole(s[1..], sep);
      assert [s[0]] + s[1..] == s;
    }
  }

  /** Splitting goes part by part: a separator between two texts splits each on its own. */
  lemma {:induction false} SplitWhereConcat(a: string, c: char, b: string, sep: char -> bool)
    requires sep(c)
    ensures SplitWhere(a + [c] + b, sep) == SplitWhere(a, sep) + SplitWhere(b, sep)
  {
    var s := a + [c] + b;
    if a == [] {
      assert s[1..] == b;
    } else {
      assert s[1..] == a[1..] + [c] + b;
      SplitWhereConcat(a[1..], c, b, sep);
    }
  }

  /** `part` stands in `s` from `i` to `j`, between separators or the ends, and holds none. */
  ghost predicate StandsAlone(s: string, sep: char -> bool, part: string, i: nat, j: nat) {
    && i <= j <= |s|
    && s[i..j] == part
    && (forall c | c in part :: !sep(c))
    && (i == 0 || sep(s[i - 1]))
    && (j == |s| || sep(s[j]))
  }

  /** The first part stands at the start, up to the first separator. */
  lemma {:induction false} FirstPart(s: string, sep: char -> bool)
    ensures StandsAlone(s, sep, SplitWhere(s, sep)[0], 0, |SplitWhere(s, sep)[0]|)
  {
    if s != [] && !sep(s[0]) {
      FirstPart(s[1..], sep);
      var p := SplitWhere(s[1..], sep)[0];
      assert s[0..|p| + 1] == [s[0]] + s[1..][0..|p|];
    }
  }

  lemma {:induction false} LaterPart(s: string, sep: char -> bool, k: nat) returns (i: nat, j: nat)
    requires 0 < k < |SplitWhere(s, sep)|
    ensures 0 < i && StandsAlone(s, sep, SplitWhere(s, sep)[k], i, j)
  {
    assert s != [];
    if sep(s[0]) {
      if k == 1 {
        FirstPart(s[1..], sep);
        i, j := 0, |SplitWhere(s[1..], sep)[0]|;
      } else {
        i, j := LaterPart(s[1..], sep, k - 1);
      }
    } else {
      i, j := LaterPart(s[1..], sep, k);
    }
    OneOn(s, sep, SplitWhere(s, sep)[k], i, j);
    i, j := i + 1, j + 1;
  }

  lemma OneOn(s: string, sep: char -> bool, part: string, i: nat, j: nat)
    requires s != [] && StandsAlone(s[1..], sep, part, i, j) && (i == 0 ==> sep(s[0]))
    ensures StandsAlone(s, sep, part, i + 1, j + 1)
  {
    assert s[1..][i..j] == s[i + 1..j + 1];
  }

  lemma PartStandsAlone(s: string, sep: char -> bool, k: nat) returns (i: nat, j: nat)
    requires k < |SplitWhere(s, sep)|
    ensures StandsAlone(s, sep, SplitWhere(s, sep)[k], i, j)
  {
    if k == 0 {
      FirstPart(s, sep);
      i, j := 0, |SplitWhere(s, sep)[0]|;
    } else {
      i, j := LaterPart(s, sep, k);
    }
  }

  lemma {:induction false} StandingAloneIsAPart(s: string, sep: char -> bool, part: string, i: nat, j: nat)
    requires StandsAlone(s, sep, part, i, j)
    ensures part in SplitWhere(s, sep)
  {
    if i == 0 {
      if j == |s| {
        assert s == part;
        SplitWhereWhole(s, sep);
      } else {
        assert s == part + [s[j]] + s[j + 1..];
        SplitWhereConcat(part, s[j], s[j + 1..], sep);
        SplitWhereWhole(part, sep);
      }
    } else {
      var c, rest := s[i - 1], s[i..];
      assert s == s[..i - 1] + [c] + rest;
      SplitWhereConcat(s[..i - 1], c, rest, sep);
      assert rest[0..j - i] == part;
      StandingAloneIsAPart(rest, sep, part, 0, j - i);
    }
  }

  /** The parts of a split are exactly the separator-free stretches between separators. */
  lemma PartsAreStretches(s: string, sep: char -> bool, part: string)
    ensures part in SplitWhere(s, sep) <==> exists i: nat, j: nat :: StandsAlone(s, sep, part, i, j)
  {
    if part in SplitWhere(s, sep) {
      var k: nat :| k < |SplitWhere(s, sep)| && SplitWhere(s, sep)[k] == part;
      var i, j := PartStandsAlone(s, sep, k);
    }
    if i: nat, j: nat :| StandsAlone(s, sep, part, i, j) {
      StandingAloneIsAPart(s, sep, part, i, j);
    }
  }

  /** The parts with `c` between them. */
  function Joined(parts: seq<string>, c: char): string
    requires parts != []
  {
    if |parts| == 1 then parts[0] else parts[0] + [c] + Joined(parts[1..], c)
  }

  lemma JoinedAfter(first: string, rest: seq<string>, c: char)
    ensures Joined([first] + rest, c) == if rest == [] then first else first + [c] + Joined(rest, c)
  {
    Seam([first], rest);
  }

  lemma JoinedMore(x: char, rest: seq<string>, c: char)
    requires rest != []
    ensures Joined([[]] + rest, c) == [c] + Joined(rest, c)
    ensures Joined([[x] + rest[0]] + rest[1..], c) == [x] + Joined(rest, c)
  {
    hide Joined;
    JoinedAfter([], rest, c);
    JoinedAfter([x] + rest[0], rest[1..], c);
    JoinedAfter(rest[0], rest[1..], c);
    assert rest == [rest[0]] + rest[1..];
    if |rest| > 1 {
      Assoc([x] + rest[0], [c], Joined(rest[1..], c));
      Assoc([x], rest[0], [c] + Joined(rest[1..], c));
      Assoc(rest[0], [c], Joined(rest[1..], c));
    }
  }

  /** Joining what a split parted gives the text back. */
  lemma {:induction false} JoinedSplit(text: string, c: char, sep: char -> bool)
    requires forall x :: sep(x) <==> x == c
    ensures Joined(SplitWhere(text, sep), c) == text
  {
    if text != [] {
      JoinedSplit(text[1..], c, sep);
      JoinedMore(text[0], SplitWhere(text[1..], sep), c);
      hide Joined;
      assert text == [text[0]] + text[1..];
    }
  }

  /** And splitting what was joined gives the parts. */
  lemma {:induction false} SplitJoined(parts: seq<string>, c: char, sep: char -> bool)
    requires parts != [] && (forall x :: sep(x) <==> x == c) && forall p | p in parts :: c !in p
    ensures SplitWhere(Joined(parts, c), sep) == parts
  {
    SplitWhereWhole(parts[0], sep);
    if |parts| == 1 {
      assert parts == [parts[0]];
    } else {
      SplitJoined(parts[1..], c, sep);
      SplitWhereConcat(parts[0], c, Joined(parts[1..], c), sep);
      assert parts == [parts[0]] + parts[1..];
    }
  }

  // ----- trimming -----

  function TrimStart(s: string, space: char -> bool): string {
    if s != [] && space(s[0]) then TrimStart(s[1..], space) else s
  }

  function TrimEnd(s: string, space: char -> bool): string {
    if s != [] && space(s[|s| - 1]) then TrimEnd(s[..|s| - 1], space) else s
  }

  function Trim(s: string, space: char -> bool): string {
    TrimEnd(TrimStart(s, space), space)
  }

  /** What's left is what stands between spaces, and neither begins nor ends with one. */
  lemma TrimmedIs(s: string, space: char -> bool) returns (ahead: string, behind: string)
    ensures s == ahead + Trim(s, space) + behind
    ensures forall c | c in ahead || c in behind :: space(c)
    ensures var t := Trim(s, space); t != [] ==> !space(t[0]) && !space(t[|t| - 1])
  {
    ahead := TrimmedAhead(s, space);
    behind := TrimmedBehind(TrimStart(s, space), space);
    assert s == ahead + Trim(s, space) + behind;
  }

  lemma {:induction false} TrimmedAhead(s: string, space: char -> bool) returns (ahead: string)
    ensures s == ahead + TrimStart(s, space) && forall c | c in ahead :: space(c)
    ensures var t := TrimStart(s, space); t != [] ==> !space(t[0])
  {
    ahead := [];
    if s != [] && space(s[0]) {
      ahead := TrimmedAhead(s[1..], space);
      ahead := [s[0]] + ahead;
    }
  }

  lemma {:induction false} TrimmedBehind(s: string, space: char -> bool) returns (behind: string)
    ensures s == TrimEnd(s, space) + behind && forall c | c in behind :: space(c)
    ensures var t := TrimEnd(s, space); t != [] ==> !space(t[|t| - 1]) && t[0] == s[0]
  {
    behind := [];
    if s != [] && space(s[|s| - 1]) {
      behind := TrimmedBehind(s[..|s| - 1], space);
      behind := behind + [s[|s| - 1]];
    }
  }

  // ----- lines -----

  predicate IsNewline(c: char) { c == '\n' }

  /** `lines`: the parts between newlines, less a carriage return at the end of each, and less an empty one
      at the end of all. */
  function Lines(text: string): seq<string> {
    var parts := SplitWhere(text, IsNewline);
    var last := |parts| - 1;
    var lines := if parts[last] == "" then parts[..last] else parts;
    seq(|lines|, i requires 0 <= i < |lines| =>
      var line := lines[i];
      if i < last && line != "" && line[|line| - 1] == '\r' then line[..|line| - 1] else line)
  }

  /** The texts each ended by a newline. */
  function Unlines(lines: seq<string>): string {
    if lines == [] then [] else lines[0] + ['\n'] + Unlines(lines[1..])
  }

  /** A line without the carriage return at its end. */
  function Returned(line: string): string {
    if line != "" && line[|line| - 1] == '\r' then line[..|line| - 1] else line
  }

  /** The lines of texts each ended by a newline, and of what comes after the last: that's a line only when
      there's something of it, and keeps its carriage return. */
  lemma LinesAre(lines: seq<string>, tail: string)
    requires '\n' !in tail && forall l | l in lines :: '\n' !in l
    ensures |Lines(Unlines(lines) + tail)| == |lines| + (if tail == "" then 0 else 1)
    ensures forall i | 0 <= i < |lines| :: Lines(Unlines(lines) + tail)[i] == Returned(lines[i])
    ensures tail != "" ==> Lines(Unlines(lines) + tail)[|lines|] == tail
  {
    hide SplitWhere;
    UnlinesJoined(lines, tail);
    SplitJoined(lines + [tail], '\n', IsNewline);
  }

  lemma {:induction false} UnlinesJoined(lines: seq<string>, tail: string)
    ensures Unlines(lines) + tail == Joined(lines + [tail], '\n')
  {
    if lines == [] {
      assert lines + [tail] == [tail];
    } else {
      UnlinesJoined(lines[1..], tail);
      assert (lines + [tail])[1..] == lines[1..] + [tail];
      Assoc(lines[0] + ['\n'], Unlines(lines[1..]), tail);
    }
  }

  lemma {:induction false} UnlinesConcat(a: seq<string>, b: seq<string>)
    ensures Unlines(a + b) == Unlines(a) + Unlines(b)
  {
    if a == [] {
      assert a + b == b;
    } else {
      assert (a + b)[1..] == a[1..] + b;
      UnlinesConcat(a[1..], b);
    }
  }

  // ----- decimal numbers -----

  predicate IsDigit(c: char) { '0' <= c <= '9' }

  /** A text of one digit or more. */
  predicate IsNumber(s: string) {
    s != [] && forall c | c in s :: IsDigit(c)
  }

  function DigitOf(n: nat): (c: char)
    requires n < 10
    ensures IsDigit(c) && ValueOf(c) == n
  {
    '0' + (n as char)
  }

  function ValueOf(c: char): nat
    requires IsDigit(c)
  {
    (c as int) - ('0' as int)
  }

  /** A number as it's printed in decimal. */
  function Show(n: nat): (s: string)
    ensures IsNumber(s)
  {
    if n < 10 then [DigitOf(n)] else Show(n / 10) + [DigitOf(n % 10)]
  }

  /** The number a text of digits reads as. */
  function Read(s: string): nat
    requires forall c | c in s :: IsDigit(c)
  {
    if s == [] then 0 else Read(s[..|s| - 1]) * 10 + ValueOf(s[|s| - 1])
  }

  lemma {:induction false} ReadShow(n: nat)
    ensures Read(Show(n)) == n
  {
    if n >= 10 {
      ReadShow(n / 10);
      assert Show(n)[..|Show(n)| - 1] == Show(n / 10);
    } else {
      assert Show(n)[..0] == [];
      assert Read([]) == 0;
    }
  }

  lemma NumberHoldsNo(s: string, c: char)
    requires IsNumber(s) && !IsDigit(c)
    ensures c !in s
  {}

  /** The longest run of digits `s` starts with, and what follows it. */
  function SpanDigits(s: string): (r: (string, string))
    ensures s == r.0 + r.1
    ensures forall c | c in r.0 :: IsDigit(c)
    ensures r.1 == [] || !IsDigit(r.1[0])
  {
    if s == [] || !IsDigit(s[0]) then
      ([], s)
    else
      var rest := SpanDigits(s[1..]);
      ([s[0]] + rest.0, rest.1)
  }

  lemma {:induction false} SpanDigitsIs(digits: string, rest: string)
    requires forall c | c in digits :: IsDigit(c)
    requires rest == [] || !IsDigit(rest[0])
    ensures SpanDigits(digits + rest) == (digits, rest)
  {
    if digits == [] {
      assert digits + rest == rest;
    } else {
      var s := digits + rest;
      assert s[1..] == digits[1..] + rest;
      SpanDigitsIs(digits[1..], rest);
      assert [s[0]] + digits[1..] == digits;
    }
  }
}
