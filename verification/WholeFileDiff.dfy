/** Diffs of new files, and a reader that recovers the files from them. */
module WholeFileDiff {
  import opened Text

  const MARKER := "\\ No newline at end of file"

  /** `split_inclusive('\n')`: the lines, each with its newline but perhaps the last. */
  function SplitInclusive(text: string): seq<string> {
    if text == [] then []
    else
      match Find(text, "\n")
      case None => [text]
      case Some(at) => [text[..at + 1]] + SplitInclusive(text[at + 1..])
  }

  predicate EndsInNewline(text: string) { text != [] && text[|text| - 1] == '\n' }

  /** One file's diff is its header, each line behind a `+`, and the marker when the last has no newline. */
  method AddedFile(path: string, text: string) returns (diff: string)
    ensures text == [] ==> diff == []
    ensures text != [] ==> diff == Unlines(DiffLines(path, text))
  {
    var pieces := SplitInclusive(text);
    if |pieces| == 0 {
      return [];
    }
    Pieces(text);
    diff := Unlines(Header(path, |pieces|));
    ghost var header := diff;
    for i := 0 to |pieces|
      invariant diff == header + Plussed(pieces[..i])
    {
      assert pieces[..i + 1][..i] == pieces[..i];
      Assoc(header, Plussed(pieces[..i]), ['+'] + pieces[i]);
      Assoc(diff, ['+'], pieces[i]);
      diff := diff + ['+'];
      diff := diff + pieces[i];
    }
    assert pieces[..|pieces|] == pieces;
    if !EndsInNewline(text) {
      diff := diff + ("\n" + MARKER + "\n");
    } else {
      assert diff == diff + "";
    }
    Whole(path, text, header, diff);
  }

  // ----- the diff as lines -----

  function Header(path: string, lines: nat): seq<string> {
    ["diff --git a/" + path + " b/" + path,
     "new file mode 100644",
     "--- /dev/null",
     "+++ b/" + path + (if ' ' in path then "\t" else ""),
     "@@ -0,0 +1," + Show(lines) + " @@"]
  }

  function Chomp(line: string): string {
    if EndsInNewline(line) then line[..|line| - 1] else line
  }

  function PlusLines(pieces: seq<string>): seq<string> {
    seq(|pieces|, i requires 0 <= i < |pieces| => ['+'] + Chomp(pieces[i]))
  }

  function Marked(text: string): seq<string> {
    if EndsInNewline(text) then [] else [MARKER]
  }

  function BodyLines(text: string): seq<string> {
    PlusLines(SplitInclusive(text)) + Marked(text)
  }

  function DiffLines(path: string, text: string): seq<string> {
    Header(path, |SplitInclusive(text)|) + BodyLines(text)
  }

  /** Each piece behind a `+`, as it's pushed. */
  ghost function Plussed(pieces: seq<string>): string {
    if pieces == [] then [] else Plussed(pieces[..|pieces| - 1]) + (['+'] + pieces[|pieces| - 1])
  }

  /** The parts as pushed are the lines, each with its newline. */
  lemma Whole(path: string, text: string, header: string, diff: string)
    requires text != [] && header == Unlines(Header(path, |SplitInclusive(text)|))
    requires diff == header + Plussed(SplitInclusive(text)) + (if EndsInNewline(text) then "" else "\n" + MARKER + "\n")
    ensures diff == Unlines(DiffLines(path, text))
  {
    var pieces := SplitInclusive(text);
    var lines, plussed := PlusLines(pieces), Plussed(pieces);
    Pieces(text);
    PlussedIsUnlined(pieces);
    UnlinesConcat(Header(path, |pieces|), BodyLines(text));
    UnlinesConcat(lines, Marked(text));
    if EndsInNewline(text) {
      assert lines + Marked(text) == lines;
      assert plussed + "" == plussed && diff == header + plussed;
    } else {
      UnlinesOne(MARKER);
      Assoc("\n", MARKER, "\n");
      Assoc(header, plussed, "\n" + (MARKER + "\n"));
      Assoc(plussed, "\n", MARKER + "\n");
    }
  }

  lemma UnlinesNothing()
    ensures Unlines([]) == []
  {}

  lemma UnlinesOne(line: string)
    ensures Unlines([line]) == line + "\n"
  {
    assert [line][1..] == [];
  }

  // ----- the pieces of a text -----

  /** Every piece but the last ends in a newline, the last as the text does, and none holds another. */
  ghost predicate ArePieces(pieces: seq<string>) {
    && (forall i | 0 <= i < |pieces| - 1 :: EndsInNewline(pieces[i]))
    && (forall i | 0 <= i < |pieces| :: pieces[i] != [] && '\n' !in Chomp(pieces[i]))
  }

  lemma FirstPiece(text: string)
    requires text != []
    ensures Find(text, "\n").None? ==> '\n' !in text && Chomp(text) == text
    ensures match Find(text, "\n")
            case None => true
            case Some(at) => '\n' !in text[..at] && EndsInNewline(text[..at + 1]) && Chomp(text[..at + 1]) == text[..at]
  {
    var at := Find(text, "\n");
    forall i | 0 <= i < (if at.Some? then at.value else |text|) ensures text[i] != '\n' {
      assert !OccursAt(text, "\n", i) && text[i..i + 1] == [text[i]];
    }
    if at.Some? {
      assert text[at.value..at.value + 1][0] == '\n';
    }
  }

  lemma {:induction false} Pieces(text: string)
    ensures ArePieces(SplitInclusive(text))
    ensures SplitInclusive(text) == [] <==> text == []
    ensures LastPiece(SplitInclusive(text), text)
  {
    if text != [] {
      FirstPiece(text);
      match Find(text, "\n")
      case None =>
      case Some(at) =>
        var line, rest := text[..at + 1], text[at + 1..];
        Pieces(rest);
        OnePieceMore(line, SplitInclusive(rest));
        LastPieceAfter(line, rest, SplitInclusive(rest));
        Cut(text, at + 1);
    }
  }

  ghost predicate LastPiece(pieces: seq<string>, text: string) {
    pieces != [] ==> (EndsInNewline(pieces[|pieces| - 1]) <==> EndsInNewline(text))
  }

  lemma LastPieceAfter(line: string, rest: string, pieces: seq<string>)
    requires LastPiece(pieces, rest) && (pieces == [] <==> rest == []) && EndsInNewline(line)
    ensures LastPiece([line] + pieces, line + rest)
  {
    if rest == [] {
      assert line + rest == line;
    } else {
      assert (line + rest)[|line + rest| - 1] == rest[|rest| - 1];
    }
  }

  lemma OnePieceMore(line: string, pieces: seq<string>)
    requires EndsInNewline(line) && '\n' !in Chomp(line) && ArePieces(pieces)
    ensures ArePieces([line] + pieces)
  {}

  lemma {:induction false} PlussedIsUnlined(pieces: seq<string>)
    requires ArePieces(pieces)
    ensures Unlines(PlusLines(pieces))
         == Plussed(pieces) + (if pieces != [] && !EndsInNewline(pieces[|pieces| - 1]) then "\n" else "")
  {
    hide Unlines;
    UnlinesNothing();
    if pieces == [] {
      assert PlusLines(pieces) == [];
    } else {
      var last := |pieces| - 1;
      PlussedIsUnlined(pieces[..last]);
      var line := pieces[last];
      assert PlusLines(pieces) == PlusLines(pieces[..last]) + [['+'] + Chomp(line)];
      UnlinesConcat(PlusLines(pieces[..last]), [['+'] + Chomp(line)]);
      UnlinesOne(['+'] + Chomp(line));
      Empty(Plussed(pieces[..last]));
      Empty(Plussed(pieces));
      if EndsInNewline(line) {
        Cut(line, |line| - 1);
        Assoc(['+'], Chomp(line), "\n");
      } else {
        Assoc(Plussed(pieces[..last]), ['+'] + line, "\n");
      }
    }
  }

  // ----- reading a diff back -----

  datatype Added = Added(path: string, text: string)

  /** The name on a `+++` line ends at a tab, and with no tab at the first space. */
  function NameOn(rest: string): string {
    match SplitOnce(rest, "\t")
    case Some((name, _)) => name
    case None =>
      match SplitOnce(rest, " ")
      case Some((name, _)) => name
      case None => rest
  }

  /** How many lines a hunk's header says are added. */
  function CountOn(line: string): Option<nat> {
    var opening := "@@ -0,0 +1,";
    if !(opening <= line) then None
    else
      var (digits, rest) := SpanDigits(line[|opening|..]);
      if digits != [] && rest == " @@" then Some(Read(digits)) else None
  }

  /** The text of `lines`, each of which is to begin with a `+`. */
  function TextOf(lines: seq<string>): Option<string> {
    if lines == [] then Some([])
    else if lines[0] == [] || lines[0][0] != '+' then None
    else
      match TextOf(lines[1..])
      case None => None
      case Some(rest) => Some(lines[0][1..] + "\n" + rest)
  }

  lemma TextOfLines(lines: seq<string>)
    ensures TextOf(lines).Some? && lines != [] ==> |TextOf(lines).value| >= 1
  {}

  /** A file's name, which two of the header's five lines are to agree on, and how many lines it adds. */
  function HeaderOf(lines: seq<string>): Option<(string, nat)> {
    if |lines| < 5 then None
    else if lines[1] != "new file mode 100644" || lines[2] != "--- /dev/null" then None
    else if !("+++ b/" <= lines[3]) || CountOn(lines[4]).None? then None
    else
      var name := NameOn(lines[3][6..]);
      if lines[0] == "diff --git a/" + name + " b/" + name then Some((name, CountOn(lines[4]).value)) else None
  }

  /** A hunk's text of `count` lines, less its last newline when the marker follows, and the lines after it. */
  function BodyOf(lines: seq<string>, count: nat): (r: Option<(string, seq<string>)>)
    ensures r.Some? ==> |r.value.1| <= |lines|
  {
    if count == 0 || |lines| <= count then None
    else
      match TextOf(lines[..count])
      case None => None
      case Some(text) =>
        TextOfLines(lines[..count]);
        if lines[count] == "\\ No newline at end of file" then Some((text[..|text| - 1], lines[count + 1..]))
        else Some((text, lines[count..]))
  }

  /** Reads added files off the lines of a diff, by their counts, until the end. */
  function ApplyLines(lines: seq<string>): Option<seq<Added>>
    decreases |lines|
  {
    if lines == [""] then Some([])
    else
      match HeaderOf(lines)
      case None => None
      case Some((name, count)) =>
        match BodyOf(lines[5..], count)
        case None => None
        case Some((text, rest)) =>
          match ApplyLines(rest)
          case None => None
          case Some(more) => Some([Added(name, text)] + more)
  }

  function Apply(diff: string): Option<seq<Added>> {
    ApplyLines(SplitWhere(diff, IsNewline))
  }

  /** Splitting at newlines takes the newlines off again. */
  lemma {:induction false} SplitUnlines(lines: seq<string>)
    requires forall line | line in lines :: '\n' !in line
    ensures SplitWhere(Unlines(lines), IsNewline) == lines + [""]
  {
    if lines != [] {
      SplitUnlines(lines[1..]);
      SplitWhereConcat(lines[0], '\n', Unlines(lines[1..]), IsNewline);
      SplitWhereWhole(lines[0], IsNewline);
    }
  }

  lemma TextOfCons(line: string, lines: seq<string>)
    requires TextOf(lines).Some?
    ensures TextOf([['+'] + line] + lines) == Some(line + "\n" + TextOf(lines).value)
  {
    var all := [['+'] + line] + lines;
    assert all[1..] == lines && all[0][1..] == line;
  }

  /** A text whose last line has its newline. */
  function Ended(text: string): string {
    if text == [] || EndsInNewline(text) then text else text + "\n"
  }

  lemma EndedAfter(line: string, rest: string)
    requires EndsInNewline(line)
    ensures Ended(line + rest) == line + Ended(rest)
  {
    if rest == [] {
      assert line + rest == line;
    } else {
      assert (line + rest)[|line + rest| - 1] == rest[|rest| - 1];
      Assoc(line, rest, "\n");
    }
  }

  /** The text behind the `+` signs is the text, with a newline where its last line has none. */
  lemma {:induction false} TextOfPieces(text: string)
    ensures TextOf(PlusLines(SplitInclusive(text))) == Some(Ended(text))
  {
    if text != [] {
      FirstPiece(text);
      match Find(text, "\n")
      case None =>
        assert PlusLines([text]) == [['+'] + text] + [];
        TextOfCons(text, []);
        assert text + "\n" + "" == text + "\n";
      case Some(at) =>
        var line, rest := text[..at + 1], text[at + 1..];
        TextOfPieces(rest);
        assert SplitInclusive(text) == [line] + SplitInclusive(rest);
        TextOfFirst(line, rest);
        Cut(text, at + 1);
    }
  }

  lemma TextOfFirst(line: string, rest: string)
    requires EndsInNewline(line)
    requires TextOf(PlusLines(SplitInclusive(rest))) == Some(Ended(rest))
    ensures TextOf(PlusLines([line] + SplitInclusive(rest))) == Some(Ended(line + rest))
  {
    hide TextOf, SplitInclusive, Ended;
    assert PlusLines([line] + SplitInclusive(rest)) == [['+'] + Chomp(line)] + PlusLines(SplitInclusive(rest));
    TextOfCons(Chomp(line), PlusLines(SplitInclusive(rest)));
    EndedAfter(line, rest);
    assert line == Chomp(line) + "\n";
  }

  /** A path a diff's header can carry: its name ends at a tab, and its line at a newline. */
  predicate Carried(path: string) { '\t' !in path && '\n' !in path }

  /** Without its tab a path with a space would be read as what stands ahead of the first one. */
  lemma TheTabIsForSpaces(path: string)
    requires '\t' !in path
    ensures NameOn(path) == path <==> ' ' !in path
    ensures ' ' in path ==> exists rest :: path == NameOn(path) + " " + rest && ' ' !in NameOn(path)
  {
    SplitOnceFirst(path, '\t');
    SplitOnceFirst(path, ' ');
    if ' ' in path {
      var (name, rest) := SplitOnce(path, " ").value;
      assert path == name + " " + rest;
    }
  }

  lemma NameReadsBack(path: string)
    requires '\t' !in path
    ensures NameOn(path + (if ' ' in path then "\t" else "")) == path
  {
    if ' ' in path {
      SplitOnceChar(path, '\t', "");
      assert path + "\t" + "" == path + "\t";
    } else {
      assert path + "" == path;
      SplitOnceFirst(path, '\t');
      SplitOnceFirst(path, ' ');
    }
  }

  lemma CountReadsBack(count: nat)
    ensures CountOn("@@ -0,0 +1," + Show(count) + " @@") == Some(count)
  {
    var line := "@@ -0,0 +1," + Show(count) + " @@";
    var opening := "@@ -0,0 +1,";
    Assoc(opening, Show(count), " @@");
    assert line[|opening|..] == Show(count) + " @@";
    SpanDigitsIs(Show(count), " @@");
    ReadShow(count);
  }

  lemma PathLineReads(path: string)
    requires '\t' !in path
    ensures var line := "+++ b/" + path + (if ' ' in path then "\t" else "");
            "+++ b/" <= line && NameOn(line[6..]) == path
  {
    var tab := if ' ' in path then "\t" else "";
    NameReadsBack(path);
    Assoc("+++ b/", path, tab);
    assert ("+++ b/" + (path + tab))[6..] == path + tab;
  }

  lemma GitLineReads(path: string)
    ensures "diff --git " <= "diff --git a/" + path + " b/" + path
  {
    Assoc("diff --git a/", path, " b/");
    Assoc("diff --git a/", path + " b/", path);
    assert "diff --git " <= "diff --git a/";
  }

  lemma HeaderReads(path: string, count: nat, rest: seq<string>)
    requires '\t' !in path
    ensures HeaderOf(Header(path, count) + rest) == Some((path, count))
    ensures (Header(path, count) + rest)[5..] == rest
  {
    PathLineReads(path);
    GitLineReads(path);
    CountReadsBack(count);
  }

  lemma BodyOfParts(lines: seq<string>, plus: seq<string>, tail: seq<string>, text: string)
    requires plus != [] && tail != [] && TextOf(plus) == Some(text)
    requires lines == plus + tail
    ensures |text| >= 1
    ensures BodyOf(lines, |plus|)
         == Some(if tail[0] == MARKER then (text[..|text| - 1], tail[1..]) else (text, tail))
  {
    TextOfLines(plus);
    hide TextOf;
    var count := |plus|;
    assert lines[..count] == plus && lines[count..] == tail && lines[count] == tail[0] by {
      Seam(plus, tail);
    }
    assert lines[count + 1..] == tail[1..] by {
      Seam(plus, tail);
    }
  }

  lemma BodyReads(text: string, rest: seq<string>)
    requires text != [] && rest != [] && rest[0] != MARKER
    ensures BodyOf(BodyLines(text) + rest, |SplitInclusive(text)|) == Some((text, rest))
  {
    var plus := PlusLines(SplitInclusive(text));
    assert plus != [] by { Pieces(text); }
    TextOfPieces(text);
    if EndsInNewline(text) {
      Empty(plus);
      BodyOfParts(BodyLines(text) + rest, plus, rest, text);
    } else {
      Assoc(plus, [MARKER], rest);
      BodyOfParts(BodyLines(text) + rest, plus, [MARKER] + rest, text + "\n");
      Seam(text, "\n");
      Seam([MARKER], rest);
    }
  }

  /** Reading one file's lines gives the file and goes on with the lines after it. */
  lemma OneFileReadsBack(path: string, text: string, rest: seq<string>)
    requires text != [] && '\t' !in path && rest != [] && rest[0] != MARKER
    ensures ApplyLines(DiffLines(path, text) + rest)
         == match ApplyLines(rest) { case None => None case Some(more) => Some([Added(path, text)] + more) }
  {
    var count := |SplitInclusive(text)|;
    assert DiffLines(path, text) + rest == Header(path, count) + (BodyLines(text) + rest);
    HeaderReads(path, count, BodyLines(text) + rest);
    BodyReads(text, rest);
  }

  /** A list of files' diffs, one after the other. */
  ghost function DiffOf(files: seq<Added>): string {
    if files == [] then []
    else (if files[0].text == [] then [] else Unlines(DiffLines(files[0].path, files[0].text))) + DiffOf(files[1..])
  }

  ghost function LinesOf(files: seq<Added>): seq<string> {
    if files == [] then []
    else (if files[0].text == [] then [] else DiffLines(files[0].path, files[0].text)) + LinesOf(files[1..])
  }

  /** The files with something in them: an empty text prints nothing. */
  ghost function NotEmpty(files: seq<Added>): seq<Added> {
    if files == [] then []
    else (if files[0].text == [] then [] else [files[0]]) + NotEmpty(files[1..])
  }

  lemma HeaderHoldsNoNewline(path: string, count: nat)
    requires '\n' !in path
    ensures forall line | line in Header(path, count) :: '\n' !in line
  {
    hide Show;
    NumberHoldsNo(Show(count), '\n');
  }

  lemma NoNewlineWithin(path: string, text: string)
    requires text != [] && '\n' !in path
    ensures forall line | line in DiffLines(path, text) :: '\n' !in line
  {
    hide SplitInclusive, Header;
    Pieces(text);
    HeaderHoldsNoNewline(path, |SplitInclusive(text)|);
    assert forall line | line in PlusLines(SplitInclusive(text)) :: '\n' !in line;
  }

  lemma {:induction false} LinesOfFiles(files: seq<Added>)
    requires forall f | f in files :: Carried(f.path)
    ensures DiffOf(files) == Unlines(LinesOf(files))
    ensures forall line | line in LinesOf(files) :: '\n' !in line
    ensures LinesOf(files) != [] ==> LinesOf(files)[0] != MARKER
  {
    if files != [] {
      var f, rest := files[0], files[1..];
      LinesOfFiles(rest);
      if f.text != [] {
        NoNewlineWithin(f.path, f.text);
        UnlinesConcat(DiffLines(f.path, f.text), LinesOf(rest));
        assert LinesOf(files)[0] == DiffLines(f.path, f.text)[0];
        GitLineIsNoMarker(f.path, f.text);
      } else {
        Empty(LinesOf(rest));
        Empty(DiffOf(rest));
      }
    }
  }

  lemma GitLineIsNoMarker(path: string, text: string)
    ensures DiffLines(path, text)[0] != MARKER
  {
    assert DiffLines(path, text)[0][0] == 'd';
  }

  lemma {:induction false} FilesReadBack(files: seq<Added>)
    requires forall f | f in files :: Carried(f.path)
    ensures ApplyLines(LinesOf(files) + [""]) == Some(NotEmpty(files))
  {
    hide ApplyLines, DiffLines, LinesOf;
    if files == [] {
      NoFileReadsBack();
    } else {
      FilesReadBack(files[1..]);
      LinesOfFiles(files[1..]);
      if files[0].text == [] {
        EmptyFileAhead(files);
      } else {
        FirstFileReadsBack(files, LinesOf(files[1..]) + [""]);
      }
    }
  }

  lemma NoFileReadsBack()
    ensures ApplyLines(LinesOf([]) + [""]) == Some(NotEmpty([]))
  {
    hide DiffLines;
    assert LinesOf([]) + [""] == [""];
  }

  lemma EmptyFileAhead(files: seq<Added>)
    requires files != [] && files[0].text == []
    ensures LinesOf(files) == LinesOf(files[1..]) && NotEmpty(files) == NotEmpty(files[1..])
  {
    hide DiffLines;
  }

  lemma FirstFileReadsBack(files: seq<Added>, rest: seq<string>)
    requires files != [] && files[0].text != [] && Carried(files[0].path)
    requires rest == LinesOf(files[1..]) + [""] && rest[0] != MARKER
    requires ApplyLines(rest) == Some(NotEmpty(files[1..]))
    ensures ApplyLines(LinesOf(files) + [""]) == Some(NotEmpty(files))
  {
    hide ApplyLines, DiffLines;
    var f := files[0];
    assert LinesOf(files) == DiffLines(f.path, f.text) + LinesOf(files[1..]);
    assert LinesOf(files) + [""] == DiffLines(f.path, f.text) + rest;
    OneFileReadsBack(f.path, f.text, rest);
  }

  /** The diffs of any files, one after the other, read back as the files, in order, less the empty ones. */
  lemma DiffReadsBack(files: seq<Added>)
    requires forall f | f in files :: Carried(f.path)
    ensures Apply(DiffOf(files)) == Some(NotEmpty(files))
  {
    LinesOfFiles(files);
    SplitUnlines(LinesOf(files));
    FilesReadBack(files);
  }

  /** What's pushed for a list of files, one at a time, as the scoped run's diff is. */
  method AddedFiles(files: seq<Added>) returns (diff: string)
    ensures diff == DiffOf(files)
    ensures (forall f | f in files :: Carried(f.path)) ==> Apply(diff) == Some(NotEmpty(files))
  {
    diff := [];
    for i := 0 to |files|
      invariant diff + DiffOf(files[i..]) == DiffOf(files)
    {
      var one := AddedFile(files[i].path, files[i].text);
      assert files[i..][1..] == files[i + 1..];
      Assoc(diff, one, DiffOf(files[i + 1..]));
      diff := diff + one;
    }
    assert files[|files|..] == [] && diff + [] == diff;
    if forall f | f in files :: Carried(f.path) {
      DiffReadsBack(files);
    }
  }

  // ----- the paths it holds for -----

  lemma NameIsClean(rest: string)
    ensures '\t' !in NameOn(rest)
    ensures '\n' !in rest ==> '\n' !in NameOn(rest)
  {
    SplitOnceFirst(rest, '\t');
    SplitOnceFirst(rest, ' ');
  }

  lemma BodyRestIsWithin(lines: seq<string>, count: nat)
    requires BodyOf(lines, count).Some?
    ensures forall line | line in BodyOf(lines, count).value.1 :: line in lines
  {}

  lemma {:induction false} NamesAreClean(lines: seq<string>)
    requires forall line | line in lines :: '\n' !in line
    requires ApplyLines(lines).Some?
    ensures forall f | f in ApplyLines(lines).value :: Carried(f.path)
    decreases |lines|
  {
    if lines != [""] {
      var (name, count) := HeaderOf(lines).value;
      var (_, rest) := BodyOf(lines[5..], count).value;
      assert lines[3] in lines;
      BodyRestIsWithin(lines[5..], count);
      NameIsClean(lines[3][6..]);
      NamesAreClean(rest);
      assert ApplyLines(lines).value[1..] == ApplyLines(rest).value;
    }
  }

  lemma PartsHoldNoNewline(s: string)
    ensures forall part | part in SplitWhere(s, IsNewline) :: '\n' !in part
  {
    forall part | part in SplitWhere(s, IsNewline) ensures '\n' !in part {
      PartsAreStretches(s, IsNewline, part);
    }
  }

  /** A file's diff reads back as the file exactly when its path holds neither a tab nor a newline. */
  lemma ReadsBackExactlyWhenCarried(f: Added)
    requires f.text != []
    ensures Apply(Unlines(DiffLines(f.path, f.text))) == Some([f]) <==> Carried(f.path)
  {
    var diff := Unlines(DiffLines(f.path, f.text));
    if Carried(f.path) {
      DiffReadsBack([f]);
      assert [f][1..] == [] && diff + [] == diff && [f] + [] == [f];
    }
    if Apply(diff) == Some([f]) {
      ReadBackIsCarried(diff, f);
    }
  }

  /** A name that holds a tab is cut there. */
  lemma ATabDoesntReadBack()
    ensures Apply(Unlines(DiffLines("a\tb", "x"))) != Some([Added("a\tb", "x")])
  {
    hide Apply, DiffLines;
    assert "a\tb"[1] == '\t';
    ReadsBackExactlyWhenCarried(Added("a\tb", "x"));
  }

  lemma ReadBackIsCarried(diff: string, f: Added)
    requires Apply(diff) == Some([f])
    ensures Carried(f.path)
  {
    PartsHoldNoNewline(diff);
    NamesAreClean(SplitWhere(diff, IsNewline));
    assert f in [f];
  }
}
