/** The sizes in a skeleton against what they're the sizes of: a text's bytes in UTF-8, and what `json.dumps` writes
    of anything else. */
module SkeletonSizes {
  import opened Text
  import opened Json
  import opened Skeleton

  // ----- UTF-8 -----

  /** A character's bytes (section 3 of RFC 3629). */
  ghost function Encoded(c: char): seq<nat> {
    var n := c as int;
    if n <= 0x7F then [n]
    else if n <= 0x7FF then [0xC0 + n / 0x40, 0x80 + n % 0x40]
    else if n <= 0xFFFF then [0xE0 + n / 0x1000, 0x80 + n / 0x40 % 0x40, 0x80 + n % 0x40]
    else [0xF0 + n / 0x40000, 0x80 + n / 0x1000 % 0x40, 0x80 + n / 0x40 % 0x40, 0x80 + n % 0x40]
  }

  ghost function EncodedAll(s: string): seq<nat> {
    if s == [] then [] else Encoded(s[0]) + EncodedAll(s[1..])
  }

  /** A text's size is how many bytes it's encoded in. */
  lemma {:induction false} SizeIsItsBytes(s: string)
    ensures Size(Str(s)) == |EncodedAll(s)|
  {
    if s != [] {
      SizeIsItsBytes(s[1..]);
    }
  }

  // ----- json.dumps -----

  ghost function HexDigit(n: nat): char
    requires n < 16
  {
    "0123456789abcdef"[n]
  }

  ghost function Hex(n: nat): string
    requires n < 0x10000
  {
    [HexDigit(n / 0x1000), HexDigit(n / 0x100 % 16), HexDigit(n / 16 % 16), HexDigit(n % 16)]
  }

  /** One character as it's written between quotes: in ASCII, the others by their code units. */
  ghost function Quoted(c: char): string {
    if c == '"' then "\\\""
    else if c == '\\' then "\\\\"
    else if c == '\n' then "\\n"
    else if c == '\r' then "\\r"
    else if c == '\t' then "\\t"
    else if c as int == 8 then "\\b"
    else if c as int == 12 then "\\f"
    else if ' ' <= c <= '~' then [c]
    else if c as int <= 0xFFFF then "\\u" + Hex(c as int)
    else
      var n := c as int - 0x10000;
      "\\u" + Hex(0xD800 + n / 0x400) + "\\u" + Hex(0xDC00 + n % 0x400)
  }

  ghost function QuotedAll(s: string): string {
    if s == [] then [] else Quoted(s[0]) + QuotedAll(s[1..])
  }

  /** What `json.dumps` writes: its texts in ASCII, a blank behind each comma and each colon. */
  ghost function Written(v: Value): string
    decreases v, 1, 0
  {
    match v
    case Null => "null"
    case Bool(true) => "true"
    case Bool(false) => "false"
    case Number(written) => written
    case Str(text) => "\"" + QuotedAll(text) + "\""
    case Arr(items) => "[" + ItemsWritten(v, |items|) + "]"
    case Obj(entries) => "{" + EntriesWritten(v, |entries|) + "}"
  }

  ghost function ItemsWritten(v: Value, n: nat): string
    requires v.Arr? && n <= |v.items|
    decreases v, 0, n
  {
    if n == 0 then ""
    else ItemsWritten(v, n - 1) + (if n == 1 then "" else ", ") + Written(v.items[n - 1])
  }

  ghost function EntriesWritten(v: Value, n: nat): string
    requires v.Obj? && n <= |v.entries|
    decreases v, 0, n
  {
    if n == 0 then ""
    else
      EntriesWritten(v, n - 1) + (if n == 1 then "" else ", ")
      + ("\"" + QuotedAll(v.entries[n - 1].0) + "\": " + Written(v.entries[n - 1].1))
  }

  lemma OneQuoted(c: char)
    ensures CharEscaped(c) == |Quoted(c)|
  {
    assert forall q | q in "\"\\\n\r\t" :: q == '"' || q == '\\' || q == '\n' || q == '\r' || q == '\t';
    assert '"' in "\"\\\n\r\t" && '\\' in "\"\\\n\r\t" && '\n' in "\"\\\n\r\t" by {
      assert "\"\\\n\r\t"[0] == '"' && "\"\\\n\r\t"[1] == '\\' && "\"\\\n\r\t"[2] == '\n';
    }
    assert '\r' in "\"\\\n\r\t" && '\t' in "\"\\\n\r\t" by {
      assert "\"\\\n\r\t"[3] == '\r' && "\"\\\n\r\t"[4] == '\t';
    }
  }

  lemma {:induction false} EscapedIsQuoted(s: string)
    ensures Escaped(s) == |QuotedAll(s)|
  {
    hide CharEscaped, Quoted;
    if s != [] {
      OneQuoted(s[0]);
      EscapedIsQuoted(s[1..]);
    }
  }

  /** The length of what's written is the size of anything but a text. */
  lemma {:induction false} DumpedIsWritten(v: Value)
    ensures Dumped(v) == |Written(v)|
    decreases v, 1, 0
  {
    match v {
      case Str(text) => EscapedIsQuoted(text);
      case Arr(items) => PartsAreWritten(v, |items|);
      case Obj(entries) => PartsAreWritten(v, |entries|);
      case _ =>
    }
  }

  lemma {:induction false} PartsAreWritten(v: Value, n: nat)
    requires n <= Width(v)
    ensures v.Arr? ==> PartsDumped(v, n) == |ItemsWritten(v, n)|
    ensures v.Obj? ==> PartsDumped(v, n) == |EntriesWritten(v, n)|
    decreases v, 0, n
  {
    hide Written, QuotedAll, Dumped;
    if n > 0 {
      PartsAreWritten(v, n - 1);
      DumpedIsWritten(Part(v, n - 1));
      if v.Obj? {
        EscapedIsQuoted(v.entries[n - 1].0);
      }
    }
  }

  /** `size`: a text's bytes, and anything else's length as it's written. */
  lemma SizeIsWhatItSays(v: Value)
    ensures Size(v) == match v case Str(text) => |EncodedAll(text)| case _ => |Written(v)|
  {
    match v
    case Str(text) => SizeIsItsBytes(text);
    case _ => DumpedIsWritten(v);
  }
}
