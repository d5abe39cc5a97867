/** The handover step over a directory: refuses a capture that holds a key's shape, drops top-level
    `metadata`, and replaces every spelling of the working directory's path. */
module RedactRun {
  import opened Text
  import opened Json
  import opened Order
  import opened Redact

  newtype byte = x: int | 0 <= x < 256

  type Bytes = seq<byte>

  /** What the run takes from its libraries: UTF-8, JSON and which characters are blank. `encode` gives
      nothing for a text with a lone surrogate, which no bytes decode to. */
  datatype Codec = Codec(
    decode: Bytes -> Option<string>,
    encode: string -> Option<Bytes>,
    parse: string -> Option<Value>,
    oneLine: Value -> string,
    indented: Value -> string,
    blank: char -> bool
  )
  {
    /** What's encoded is decoded, and what's printed, parsed; a value on one line holds no
        newline. */
    ghost predicate Sound() {
      && (forall t, b :: encode(t) == Some(b) ==> decode(b) == Some(t))
      && (forall t | HoldsMetadata(t) :: parse(oneLine(Kept(t))) == Some(Kept(t)))
      && (forall t | HoldsMetadata(t) :: parse(indented(Kept(t)) + "\n") == Some(Kept(t)))
      && (forall v :: '\n' !in oneLine(v))
    }

    /** A path without a quote, a backslash or a control character is replaced within the texts of a value,
        or makes what held it no JSON, so it brings about no `metadata` key; and no blank is a slash. */
    ghost predicate KeepsKeys() {
      && (forall t, s | IsPlainPath(s) :: HoldsMetadata(Replace(t, s)) ==> HoldsMetadata(t))
      && !blank('/')
    }

    /** A table with a `metadata` key. */
    predicate HoldsMetadata(t: string) {
      && parse(t).Some?
      && Get(parse(t).value, "metadata").Some?
    }

    /** The table a text holds, without that key. */
    function Kept(t: string): Value
      requires HoldsMetadata(t)
    {
      Obj(Without(parse(t).value.entries, "metadata"))
    }
  }

  predicate IsPlainPath(s: string) {
    IsAbsolute(s) && forall c | c in s :: c >= ' ' && c != '"' && c != '\\'
  }

  function Without(entries: seq<(string, Value)>, key: string): (kept: seq<(string, Value)>)
    ensures forall e :: e in kept <==> e in entries && e.0 != key
  {
    if entries == [] then []
    else (if entries[0].0 == key then [] else [entries[0]]) + Without(entries[1..], key)
  }

  predicate EndsWith(path: string, suffix: string) {
    |suffix| <= |path| && path[|path| - |suffix|..] == suffix
  }

  predicate IsLines(path: string) { EndsWith(path, ".jsonl") }

  predicate IsJson(path: string) { EndsWith(path, ".json") || IsLines(path) }

  // ----- dropping the metadata -----

  predicate Blank(codec: Codec, line: string) {
    forall c | c in line :: codec.blank(c)
  }

  /** A line that isn't passed over as blank, and holds the key. */
  predicate Drops(codec: Codec, line: string) {
    !Blank(codec, line) && codec.HoldsMetadata(line)
  }

  function LineWithout(codec: Codec, line: string): string {
    if Drops(codec, line) then codec.oneLine(codec.Kept(line)) else line
  }

  function LinesWithout(codec: Codec, lines: seq<string>): (kept: seq<string>)
    ensures |kept| == |lines|
    ensures forall k | 0 <= k < |lines| :: kept[k] == LineWithout(codec, lines[k])
  {
    if lines == [] then [] else [LineWithout(codec, lines[0])] + LinesWithout(codec, lines[1..])
  }

  function DroppedIn(codec: Codec, lines: seq<string>): nat {
    if lines == [] then 0
    else DroppedIn(codec, lines[..|lines| - 1]) + if Drops(codec, lines[|lines| - 1]) then 1 else 0
  }

  /** No line of a split holds a newline. */
  lemma LinesHoldNone(text: string)
    ensures forall l | l in SplitWhere(text, IsNewline) :: '\n' !in l
  {
    forall l | l in SplitWhere(text, IsNewline) ensures '\n' !in l {
      PartsAreStretches(text, IsNewline, l);
    }
  }

  function TextWithout(codec: Codec, text: string, path: string): string {
    if IsLines(path) then Joined(LinesWithout(codec, SplitWhere(text, IsNewline)), '\n')
    else if codec.HoldsMetadata(text) then codec.indented(codec.Kept(text)) + "\n"
    else text
  }

  function DroppedFrom(codec: Codec, text: string, path: string): nat {
    if IsLines(path) then DroppedIn(codec, SplitWhere(text, IsNewline))
    else if codec.HoldsMetadata(text) then 1
    else 0
  }

  /** The document holds top-level metadata, or a line of a `.jsonl` does. */
  predicate AnyMetadata(codec: Codec, text: string, path: string) {
    if IsLines(path) then exists l | l in SplitWhere(text, IsNewline) :: Drops(codec, l)
    else codec.HoldsMetadata(text)
  }

  /** Each line in its place, in turn. */
  method EditLines(codec: Codec, split: seq<string>) returns (lines: seq<string>, dropped: nat)
    ensures lines == LinesWithout(codec, split) && dropped == DroppedIn(codec, split)
  {
    hide Blank, Get, Without;
    lines, dropped := split, 0;
    for index := 0 to |split|
      invariant |lines| == |split|
      invariant forall k | index <= k < |split| :: lines[k] == split[k]
      invariant forall k | 0 <= k < index :: lines[k] == LineWithout(codec, split[k])
      invariant dropped == DroppedIn(codec, split[..index])
    {
      var line := lines[index];
      assert split[..index + 1][..index] == split[..index];
      if Blank(codec, line) {
        continue;
      }
      var document := codec.parse(line);
      if document.None? {
        continue;
      }
      if document.value.Obj? && Get(document.value, "metadata").Some? {
        dropped := dropped + 1;
        lines := lines[index := codec.oneLine(Obj(Without(document.value.entries, "metadata")))];
      }
    }
    assert split[..|split|] == split;
    assert lines == LinesWithout(codec, split);
  }

  /** `without_metadata`: rewrites the lines that hold the key one at a time, or the whole document. */
  method WithoutMetadata(codec: Codec, text: string, path: string) returns (kept: string, dropped: nat)
    ensures kept == TextWithout(codec, text, path)
    ensures dropped == DroppedFrom(codec, text, path)
  {
    if IsLines(path) {
      var lines;
      lines, dropped := EditLines(codec, SplitWhere(text, IsNewline));
      return Joined(lines, '\n'), dropped;
    }
    var document := codec.parse(text);
    if document.None? {
      return text, 0;
    }
    if document.value.Obj? && Get(document.value, "metadata").Some? {
      return codec.indented(Obj(Without(document.value.entries, "metadata"))) + "\n", 1;
    }
    return text, 0;
  }

  lemma {:induction false} DroppedIsNone(codec: Codec, lines: seq<string>)
    ensures DroppedIn(codec, lines) == 0 <==> forall l | l in lines :: !Drops(codec, l)
  {
    if lines != [] {
      var init, last := lines[..|lines| - 1], lines[|lines| - 1];
      DroppedIsNone(codec, init);
      assert lines == init + [last];
    }
  }

  lemma KeptHoldsNone(codec: Codec, t: string, u: string)
    requires codec.HoldsMetadata(t) && codec.parse(u) == Some(codec.Kept(t))
    ensures !codec.HoldsMetadata(u)
  {}

  /** What's dropped is gone, the lines are as many, each that held no such key keeps its characters and
      each that did reads back as its table without the key. */
  lemma NoMetadataIsLeft(codec: Codec, text: string, path: string)
    requires codec.Sound()
    ensures !AnyMetadata(codec, TextWithout(codec, text, path), path)
    ensures DroppedFrom(codec, text, path) == 0 <==> !AnyMetadata(codec, text, path)
    ensures !AnyMetadata(codec, text, path) ==> TextWithout(codec, text, path) == text
    ensures IsLines(path) ==>
              var before := SplitWhere(text, IsNewline);
              var after := SplitWhere(TextWithout(codec, text, path), IsNewline);
              && |after| == |before|
              && forall k | 0 <= k < |before| ::
                   if Drops(codec, before[k]) then codec.parse(after[k]) == Some(codec.Kept(before[k]))
                   else after[k] == before[k]
  {
    if IsLines(path) {
      var before := SplitWhere(text, IsNewline);
      var after := LinesWithout(codec, before);
      LinesHoldNone(text);
      SplitJoined(after, '\n', IsNewline);
      DroppedIsNone(codec, before);
      forall k | 0 <= k < |before| ensures !Drops(codec, after[k]) {
        if Drops(codec, before[k]) {
          KeptHoldsNone(codec, before[k], after[k]);
        }
      }
      if forall l | l in before :: !Drops(codec, l) {
        assert after == before;
        JoinedSplit(text, '\n', IsNewline);
      }
    } else if codec.HoldsMetadata(text) {
      KeptHoldsNone(codec, text, TextWithout(codec, text, path));
    }
  }

  /** Dropping the metadata twice is dropping it once. */
  lemma DroppingTwiceIsOnce(codec: Codec, text: string, path: string)
    requires codec.Sound()
    ensures var kept := TextWithout(codec, text, path);
            TextWithout(codec, kept, path) == kept && DroppedFrom(codec, kept, path) == 0
  {
    hide TextWithout, DroppedFrom, AnyMetadata;
    NoMetadataIsLeft(codec, text, path);
    NoMetadataIsLeft(codec, TextWithout(codec, text, path), path);
  }

  // ----- the run -----

  const KEY_SHAPE: Bytes := [115, 107, 45, 97, 110, 116, 45]

  predicate HoldsAKey(raw: Bytes) {
    exists i: nat | i <= |raw| :: KEY_SHAPE <= raw[i..]
  }

  /** What a file's text becomes. */
  function Redacted(codec: Codec, path: string, text: string, spellings: seq<string>): string
    requires "" !in spellings
  {
    ReplaceAll(if IsJson(path) then TextWithout(codec, text, path) else text, spellings)
  }

  function CountAll(text: string, spellings: seq<string>): nat
    requires "" !in spellings
  {
    if spellings == [] then 0
    else
      var init, last := spellings[..|spellings| - 1], spellings[|spellings| - 1];
      CountAll(text, init) + Count(ReplaceAll(text, init), last)
  }

  /** A file's bytes after its turn: as they were if they're no text or nothing in it changes. Nothing
      when the changed text has no bytes. */
  function RedactedFile(codec: Codec, path: string, raw: Bytes, spellings: seq<string>): Option<Bytes>
    requires "" !in spellings
  {
    var text := codec.decode(raw);
    if text.None? then Some(raw)
    else
      var changed := Redacted(codec, path, text.value, spellings);
      if changed == text.value then Some(raw) else codec.encode(changed)
  }

  datatype Tally = Tally(dropped: nat, replaced: nat)

  function FileTally(codec: Codec, path: string, raw: Bytes, spellings: seq<string>): Tally
    requires "" !in spellings
  {
    var text := codec.decode(raw);
    if text.None? then Tally(0, 0)
    else if IsJson(path) then
      Tally(DroppedFrom(codec, text.value, path), CountAll(TextWithout(codec, text.value, path), spellings))
    else Tally(0, CountAll(text.value, spellings))
  }

  function Tallied(codec: Codec, files: map<string, Bytes>, paths: seq<string>, spellings: seq<string>): Tally
    requires "" !in spellings && forall p | p in paths :: p in files
  {
    if paths == [] then Tally(0, 0)
    else
      var path := paths[|paths| - 1];
      var before, one := Tallied(codec, files, paths[..|paths| - 1], spellings),
                         FileTally(codec, path, files[path], spellings);
      Tally(before.dropped + one.dropped, before.replaced + one.replaced)
  }

  /** Exit code 2 with the files named, an encoding error at a file, or exit code 0 with what's printed. */
  datatype Exit =
    | Refused(holdingAKey: seq<string>)
    | Raised(at: nat)
    | Done(read: nat, tally: Tally)

  predicate AllOnce(paths: seq<string>) {
    forall i, j | 0 <= i < j < |paths| :: paths[i] != paths[j]
  }

  /** The files after the first `n` had their turn. */
  predicate RedactedUpTo(codec: Codec, before: map<string, Bytes>, after: map<string, Bytes>,
                         paths: seq<string>, n: nat, spellings: seq<string>)
    requires n <= |paths| && "" !in spellings && forall p | p in paths :: p in before
  {
    && after.Keys == before.Keys
    && (forall k | 0 <= k < n ::
          RedactedFile(codec, paths[k], before[paths[k]], spellings) == Some(after[paths[k]]))
    && (forall k | n <= k < |paths| :: after[paths[k]] == before[paths[k]])
  }

  lemma NoneHadItsTurn(codec: Codec, files: map<string, Bytes>, paths: seq<string>, spellings: seq<string>)
    requires "" !in spellings && forall p | p in paths :: p in files
    ensures RedactedUpTo(codec, files, files, paths, 0, spellings)
  {}

  lemma StillToCome(codec: Codec, before: map<string, Bytes>, mid: map<string, Bytes>, paths: seq<string>, i: nat,
                    spellings: seq<string>)
    requires i < |paths| && "" !in spellings && forall p | p in paths :: p in before
    requires RedactedUpTo(codec, before, mid, paths, i, spellings)
    ensures paths[i] in mid && mid[paths[i]] == before[paths[i]]
  {}

  lemma OneMoreHadItsTurn(codec: Codec, before: map<string, Bytes>, mid: map<string, Bytes>, paths: seq<string>, i: nat,
                          spellings: seq<string>)
    requires i < |paths| && AllOnce(paths) && "" !in spellings && forall p | p in paths :: p in before
    requires RedactedUpTo(codec, before, mid, paths, i, spellings)
    requires RedactedFile(codec, paths[i], before[paths[i]], spellings).Some?
    ensures var bytes := RedactedFile(codec, paths[i], before[paths[i]], spellings).value;
            RedactedUpTo(codec, before, mid[paths[i] := bytes], paths, i + 1, spellings)
  {
    hide RedactedFile;
  }

  /** Each spelling in turn, counting what's replaced. */
  method ReplaceEach(text: string, spellings: seq<string>) returns (changed: string, replaced: nat)
    requires "" !in spellings
    ensures changed == ReplaceAll(text, spellings) && replaced == CountAll(text, spellings)
  {
    changed, replaced := text, 0;
    for i := 0 to |spellings|
      invariant "" !in spellings[..i]
      invariant changed == ReplaceAll(text, spellings[..i])
      invariant replaced == CountAll(text, spellings[..i])
    {
      assert spellings[..i + 1][..i] == spellings[..i];
      var count := Count(changed, spellings[i]);
      CountIsNone(changed, spellings[i]);
      if count != 0 {
        replaced := replaced + count;
        changed := Replace(changed, spellings[i]);
      } else {
        NothingToReplaceIn(changed, spellings[i]);
      }
    }
    assert spellings[..|spellings|] == spellings;
  }

  /** The directory a capture is in. */
  class Capture {
    var files: map<string, Bytes>

    constructor (files: map<string, Bytes>)
      ensures this.files == files
    {
      this.files := files;
    }

    /** The first phase: the files that hold a key's shape. */
    method HoldingAKey(paths: seq<string>) returns (holding: seq<string>)
      requires forall p | p in paths :: p in files
      ensures forall p :: p in holding <==> p in paths && HoldsAKey(files[p])
    {
      holding := [];
      for i := 0 to |paths|
        invariant forall p :: p in holding <==> p in paths[..i] && HoldsAKey(files[p])
      {
        assert paths[..i + 1] == paths[..i] + [paths[i]];
        if HoldsAKey(files[paths[i]]) {
          holding := holding + [paths[i]];
        }
      }
      assert paths[..|paths|] == paths;
    }

    /** One file's turn in the second phase. The file is opened for writing, and so emptied, before its
        text is encoded. */
    method RedactOne(codec: Codec, path: string, spellings: seq<string>) returns (written: bool, one: Tally)
      requires path in files && "" !in spellings
      modifies this
      ensures one == FileTally(codec, path, old(files)[path], spellings)
      ensures written == RedactedFile(codec, path, old(files)[path], spellings).Some?
      ensures files == old(files)[path :=
                if written then RedactedFile(codec, path, old(files)[path], spellings).value else []]
    {
      var raw := files[path];
      var decoded := codec.decode(raw);
      if decoded.None? {
        return true, Tally(0, 0);
      }
      var text := decoded.value;
      var changed, dropped := text, 0;
      if IsJson(path) {
        changed, dropped := WithoutMetadata(codec, changed, path);
      }
      var replaced;
      changed, replaced := ReplaceEach(changed, spellings);
      assert changed == Redacted(codec, path, text, spellings);
      one := Tally(dropped, replaced);
      written := true;
      if changed != text {
        files := files[path := []];
        var bytes := codec.encode(changed);
        if bytes.None? {
          written := false;
          return;
        }
        files := files[path := bytes.value];
      }
    }

    /** The whole run. Nothing changes unless no file holds a key's shape. */
    method Run(codec: Codec, paths: seq<string>, given: seq<string>) returns (exit: Exit, ghost spellings: seq<string>)
      requires AllOnce(paths) && forall p :: p in paths <==> p in files
      modifies this
      ensures AreSpellings(spellings)
      ensures forall s :: s in spellings <==> Spells(s, given)
      ensures exit.Refused? <==> exists p | p in old(files) :: HoldsAKey(old(files)[p])
      ensures exit.Refused? ==> files == old(files)
      ensures exit.Refused? ==>
                forall p :: p in exit.holdingAKey <==> p in old(files) && HoldsAKey(old(files)[p])
      ensures exit.Done? ==> exit.read == |paths| && exit.tally == Tallied(codec, old(files), paths, spellings)
      ensures exit.Done? ==> RedactedUpTo(codec, old(files), files, paths, |paths|, spellings)
      ensures exit.Raised? ==> exit.at < |paths|
      ensures exit.Raised? ==> RedactedFile(codec, paths[exit.at], old(files)[paths[exit.at]], spellings).None?
      ensures exit.Raised? ==> exists mid ::
                && RedactedUpTo(codec, old(files), mid, paths, exit.at, spellings)
                && files == mid[paths[exit.at] := []]
    {
      hide RedactedFile, FileTally, HoldsAKey, LongestFirst, AllDistinct, IsSpelling, Spells, RedactedUpTo, AllOnce;
      var holding := HoldingAKey(paths);
      var found := Spellings(given);
      spellings := found;
      if holding != [] {
        assert holding[0] in holding;
        return Refused(holding), spellings;
      }
      var tally := Tally(0, 0);
      NoneHadItsTurn(codec, files, paths, found);
      for i := 0 to |paths|
        invariant RedactedUpTo(codec, old(files), files, paths, i, spellings)
        invariant tally == Tallied(codec, old(files), paths[..i], spellings)
      {
        assert paths[..i + 1][..i] == paths[..i];
        ghost var mid := files;
        StillToCome(codec, old(files), mid, paths, i, found);
        var written, one := RedactOne(codec, paths[i], found);
        if !written {
          assert files == mid[paths[i] := []];
          return Raised(i), spellings;
        }
        OneMoreHadItsTurn(codec, old(files), mid, paths, i, found);
        tally := Tally(tally.dropped + one.dropped, tally.replaced + one.replaced);
      }
      assert paths[..|paths|] == paths;
      exit := Done(|paths|, tally);
    }
  }

  /** A redacted file decodes to the redacted text, or not at all if it was none to begin with. */
  lemma RedactedDecodes(codec: Codec, path: string, raw: Bytes, spellings: seq<string>)
    requires codec.Sound() && "" !in spellings
    requires RedactedFile(codec, path, raw, spellings).Some?
    ensures codec.decode(RedactedFile(codec, path, raw, spellings).value) ==
              match codec.decode(raw)
              case None => None
              case Some(text) => Some(Redacted(codec, path, text, spellings))
  {
    hide Redacted;
  }

  /** After a run that's done, a spelling told from the mark stands in no file that's text. */
  lemma NoPathIsLeft(codec: Codec, before: map<string, Bytes>, after: map<string, Bytes>, paths: seq<string>,
                     spellings: seq<string>, p: string, s: string)
    requires codec.Sound() && "" !in spellings && s in spellings && !MeetsMark(s)
    requires forall q :: q in paths <==> q in before
    requires RedactedUpTo(codec, before, after, paths, |paths|, spellings) && p in after
    ensures codec.decode(after[p]).Some? ==> !Occurs(codec.decode(after[p]).value, s)
  {
    hide Redacted;
    var k: nat :| k < |paths| && paths[k] == p;
    RedactedDecodes(codec, p, before[p], spellings);
    var text := codec.decode(before[p]);
    if text.Some? {
      RedactedHoldsNone(codec, p, text.value, spellings, s);
    }
  }

  lemma RedactedHoldsNone(codec: Codec, path: string, text: string, spellings: seq<string>, s: string)
    requires "" !in spellings && s in spellings && !MeetsMark(s)
    ensures !Occurs(Redacted(codec, path, text, spellings), s)
  {
    NoSpellingIsLeft(if IsJson(path) then TextWithout(codec, text, path) else text, spellings);
  }

  predicate NoneOccurs(text: string, spellings: seq<string>) {
    forall s | s in spellings :: !Occurs(text, s)
  }

  predicate ArePlain(spellings: seq<string>) {
    forall s | s in spellings :: IsPlainPath(s)
  }

  lemma {:induction false} NoKeyIsBroughtAbout(codec: Codec, text: string, spellings: seq<string>)
    requires codec.KeepsKeys() && "" !in spellings && ArePlain(spellings)
    ensures codec.HoldsMetadata(ReplaceAll(text, spellings)) ==> codec.HoldsMetadata(text)
  {
    hide Replace, IsPlainPath;
    if spellings != [] {
      var init, last := spellings[..|spellings| - 1], spellings[|spellings| - 1];
      NoKeyIsBroughtAbout(codec, text, init);
      assert codec.HoldsMetadata(Replace(ReplaceAll(text, init), last)) ==> codec.HoldsMetadata(ReplaceAll(text, init));
    }
  }

  lemma BlankHoldsNoPath(codec: Codec, line: string, spellings: seq<string>)
    requires codec.KeepsKeys() && "" !in spellings && ArePlain(spellings) && Blank(codec, line)
    ensures ReplaceAll(line, spellings) == line
  {
    forall s | s in spellings ensures !Occurs(line, s) {
      assert IsPlainPath(s);
      forall i: nat | i <= |line| ensures !OccursAt(line, s, i) {
        Pointwise(line, s, i);
        assert i < |line| ==> line[i] in line && line[i + 0] != s[0];
      }
    }
    NothingToReplace(line, spellings);
  }

  lemma NoLineIsBroughtAbout(codec: Codec, line: string, spellings: seq<string>)
    requires codec.KeepsKeys() && "" !in spellings && ArePlain(spellings)
    ensures Drops(codec, ReplaceAll(line, spellings)) ==> Drops(codec, line)
  {
    NoKeyIsBroughtAbout(codec, line, spellings);
    if Blank(codec, line) {
      BlankHoldsNoPath(codec, line, spellings);
    }
  }

  /** Replacing plain paths brings about no top-level metadata. */
  lemma NoMetadataIsBroughtAbout(codec: Codec, text: string, path: string, spellings: seq<string>)
    requires codec.KeepsKeys() && "" !in spellings && ArePlain(spellings)
    ensures AnyMetadata(codec, ReplaceAll(text, spellings), path) ==> AnyMetadata(codec, text, path)
  {
    if IsLines(path) {
      var lines := SplitWhere(text, IsNewline);
      LinesOfReplaced(text, spellings);
      var replaced := EachReplaced(lines, spellings);
      forall k | 0 <= k < |lines| ensures Drops(codec, replaced[k]) ==> Drops(codec, lines[k]) {
        NoLineIsBroughtAbout(codec, lines[k], spellings);
      }
    } else {
      NoKeyIsBroughtAbout(codec, text, spellings);
    }
  }

  /** After a run that's done with plain paths, no JSON file that's text holds top-level metadata. */
  lemma NoMetadataAfterARun(codec: Codec, before: map<string, Bytes>, after: map<string, Bytes>, paths: seq<string>,
                            spellings: seq<string>, p: string)
    requires codec.Sound() && codec.KeepsKeys() && "" !in spellings && ArePlain(spellings)
    requires forall q :: q in paths <==> q in before
    requires RedactedUpTo(codec, before, after, paths, |paths|, spellings) && p in after && IsJson(p)
    ensures codec.decode(after[p]).Some? ==> !AnyMetadata(codec, codec.decode(after[p]).value, p)
  {
    hide TextWithout, AnyMetadata, ReplaceAll, IsJson;
    var k: nat :| k < |paths| && paths[k] == p;
    RedactedDecodes(codec, p, before[p], spellings);
    var text := codec.decode(before[p]);
    if text.Some? {
      var kept := TextWithout(codec, text.value, p);
      NoMetadataIsLeft(codec, text.value, p);
      NoMetadataIsBroughtAbout(codec, kept, p, spellings);
      assert Redacted(codec, p, text.value, spellings) == ReplaceAll(kept, spellings);
    }
  }

  lemma LinesOfReplaced(text: string, spellings: seq<string>)
    requires "" !in spellings && ArePlain(spellings)
    ensures SplitWhere(ReplaceAll(text, spellings), IsNewline) == EachReplaced(SplitWhere(text, IsNewline), spellings)
  {
    hide ReplaceAll, Joined, SplitWhere;
    var lines := SplitWhere(text, IsNewline);
    var replaced := EachReplaced(lines, spellings);
    JoinedSplit(text, '\n', IsNewline);
    LinesHoldNone(text);
    assert OnOneLine(spellings) by {
      assert forall s | s in spellings :: IsPlainPath(s);
    }
    ReplaceAllJoined(lines, spellings);
    forall l | l in replaced ensures '\n' !in l {
      var k :| 0 <= k < |replaced| && replaced[k] == l;
      ReplaceAllAddsNoNewline(lines[k], spellings);
    }
    SplitJoined(replaced, '\n', IsNewline);
  }

  /** A second run changes no byte of a file that isn't JSON, nor of one that is when the paths are plain; of
      others when the first left no top-level metadata, as it does where no spelling was left once the
      metadata was dropped. */
  lemma RedactingTwiceIsOnce(codec: Codec, path: string, raw: Bytes, spellings: seq<string>)
    requires codec.Sound() && "" !in spellings && ToldApart(spellings)
    requires RedactedFile(codec, path, raw, spellings).Some?
    ensures var once := RedactedFile(codec, path, raw, spellings).value;
            var text := codec.decode(once);
            && ((text.Some? && IsJson(path) ==> !AnyMetadata(codec, text.value, path)) ==>
                  RedactedFile(codec, path, once, spellings) == Some(once))
            && (text.Some? && IsJson(path) && NoneOccurs(TextWithout(codec, codec.decode(raw).value, path), spellings) ==>
                  !AnyMetadata(codec, text.value, path))
            && (!IsJson(path) || (codec.KeepsKeys() && ArePlain(spellings)) ==>
                  RedactedFile(codec, path, once, spellings) == Some(once))
  {
    hide TextWithout, AnyMetadata, ReplaceAll;
    RedactedDecodes(codec, path, raw, spellings);
    var first := codec.decode(raw);
    if first.Some? {
      var base := if IsJson(path) then TextWithout(codec, first.value, path) else first.value;
      var once := ReplaceAll(base, spellings);
      ReplacingTwiceIsOnce(base, spellings);
      NoMetadataIsLeft(codec, first.value, path);
      NoMetadataIsLeft(codec, once, path);
      if codec.KeepsKeys() && ArePlain(spellings) {
        NoMetadataIsBroughtAbout(codec, base, path, spellings);
      }
      if NoneOccurs(base, spellings) {
        NothingToReplace(base, spellings);
      }
    }
  }

  // ----- in plain terms -----

  /** A plain path starts with a slash, and holds no control character, quote or backslash. */
  lemma PlainPathsAre(path: string)
    ensures IsPlainPath(path) <==>
              && IsAbsolute(path)
              && !exists c | c in path :: c as int < 32 || c as int == 34 || c as int == 92
  {
    assert forall c | c in path :: (c as int == 34 <==> c == '"') && (c as int == 92 <==> c == '\\');
  }

  /** A file holds a key's shape exactly when `sk-ant-` stands in its bytes. */
  lemma KeysAre(raw: Bytes)
    ensures HoldsAKey(raw) <==>
              exists i: nat | i + 7 <= |raw| :: ShapeAt(raw, i)
  {
    if i: nat :| i <= |raw| && KEY_SHAPE <= raw[i..] {
      StandsAt(raw, i);
    }
    if i: nat :| i + 7 <= |raw| && ShapeAt(raw, i) {
      StandsAt(raw, i);
    }
  }

  ghost predicate ShapeAt(raw: Bytes, i: nat)
    requires i + 7 <= |raw|
  {
    forall k | 0 <= k < 7 :: raw[i + k] as int == "sk-ant-"[k] as int
  }

  lemma StandsAt(raw: Bytes, i: nat)
    requires i <= |raw|
    ensures KEY_SHAPE <= raw[i..] <==> i + 7 <= |raw| && ShapeAt(raw, i)
  {
    var shape := "sk-ant-";
    assert |KEY_SHAPE| == |shape| == 7;
    assert forall k | 0 <= k < 7 :: KEY_SHAPE[k] as int == shape[k] as int;
    if i + 7 <= |raw| {
      var rest := raw[i..];
      assert forall k | 0 <= k < 7 :: rest[k] == raw[i + k];
      if ShapeAt(raw, i) {
        assert forall k | 0 <= k < 7 :: rest[k] == KEY_SHAPE[k];
        assert rest[..7] == KEY_SHAPE;
      }
      if KEY_SHAPE <= rest {
        assert forall k | 0 <= k < 7 :: rest[k] == KEY_SHAPE[k];
      }
    }
  }

  /** The files whose metadata is dropped, and which of them line by line. */
  lemma JsonFilesAre(path: string)
    ensures IsJson(path) <==> exists name :: path == name + ".json" || path == name + ".jsonl"
    ensures IsLines(path) <==> exists name :: path == name + ".jsonl"
  {
    Ends(path, ".json");
    Ends(path, ".jsonl");
  }

  lemma Ends(path: string, suffix: string)
    ensures EndsWith(path, suffix) <==> exists name :: path == name + suffix
  {
    if EndsWith(path, suffix) {
      assert path == path[..|path| - |suffix|] + suffix;
    }
    if name :| path == name + suffix {
      Seam(name, suffix);
    }
  }

  lemma LookupAhead(e: (string, Value), rest: seq<(string, Value)>, key: string)
    ensures Lookup([e] + rest, key) == if e.0 == key then Some(e.1) else Lookup(rest, key)
  {
    assert ([e] + rest)[1..] == rest;
  }

  /** A value without one of its keys holds every other as it did. */
  lemma {:induction false} WithoutOne(entries: seq<(string, Value)>, key: string, other: string)
    ensures Lookup(Without(entries, key), other) == if other == key then None else Lookup(entries, other)
  {
    if entries != [] {
      WithoutOne(entries[1..], key, other);
      hide Lookup;
      var rest := Without(entries[1..], key);
      LookupAhead(entries[0], entries[1..], other);
      assert [entries[0]] + entries[1..] == entries && [] + rest == rest;
      LookupAhead(entries[0], rest, other);
    }
  }

  /** After a run that's done with plain paths, what a `.json` file is parsed as has no `metadata` key, nor has what
      a line of a `.jsonl` file is that isn't blank. */
  lemma NoMetadataKeyAfterARun(
      codec: Codec, before: map<string, Bytes>, after: map<string, Bytes>, paths: seq<string>, spellings: seq<string>,
      p: string, name: string, text: string)
    requires codec.Sound() && codec.KeepsKeys() && "" !in spellings && ArePlain(spellings)
    requires forall q :: q in paths <==> q in before
    requires RedactedUpTo(codec, before, after, paths, |paths|, spellings) && p in after
    requires codec.decode(after[p]) == Some(text)
    ensures p == name + ".json" && codec.parse(text).Some? ==> Get(codec.parse(text).value, "metadata").None?
    ensures p == name + ".jsonl" ==>
              forall i: nat, j: nat, line ::
                && StandsAlone(text, IsNewline, line, i, j) && codec.parse(line).Some?
                && (exists c | c in line :: !codec.blank(c))
                ==> Get(codec.parse(line).value, "metadata").None?
  {
    hide RedactedUpTo, IsJson, IsLines, StandsAlone;
    JsonFilesAre(p);
    if p == name + ".json" || p == name + ".jsonl" {
      NoMetadataAfterARun(codec, before, after, paths, spellings, p);
      JsonIsNotLines(name);
      if p == name + ".jsonl" {
        forall i: nat, j: nat, line | StandsAlone(text, IsNewline, line, i, j)
          ensures line in SplitWhere(text, IsNewline)
        {
          PartsAreStretches(text, IsNewline, line);
        }
      }
    }
  }

  lemma JsonIsNotLines(name: string)
    ensures !IsLines(name + ".json")
  {
    var path := name + ".json";
    LastOfLines(path);
    assert path[|path| - 1] == ".json"[4] == 'n';
  }

  lemma LastOfLines(path: string)
    ensures IsLines(path) ==> path[|path| - 1] == 'l'
  {
    assert ".jsonl"[5] == 'l';
    if IsLines(path) {
      assert path[|path| - 1] == path[|path| - 6..][5];
    }
  }
}
