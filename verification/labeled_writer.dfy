/** The labelled-comment writer of
    `scripts/sentence-transformer/format_labeled_comments.py`: each input
    item becomes a `{text, label}` record, and the records are written as
    a JSON array by hand, one compact record per line. Records are encoded
    as `json.dumps` does with `separators=(',', ': ')` and
    `ensure_ascii=False`. */
module LabeledWriter {
  import opened Wrappers
  import opened Text

  /** The JSON values a `comment` or `label` field holds here. */
  datatype JsonValue = JNull | JInt(i: int) | JStr(s: string)

  /** One labelled item, with `None` for an absent key. */
  datatype LabeledInput = LabeledInput(comment: Option<JsonValue>, labelValue: Option<JsonValue>)

  datatype Record = Record(text: JsonValue, classLabel: JsonValue)

  /** The record mapping: an absent field becomes `""`. */
  function Format(item: LabeledInput): (r: Record)
    ensures item.comment.Some? ==> r.text == item.comment.value
    ensures item.comment.None? ==> r.text == JStr("")
    ensures item.labelValue.Some? ==> r.classLabel == item.labelValue.value
    ensures item.labelValue.None? ==> r.classLabel == JStr("")
  {
    Record(item.comment.GetOr(JStr("")), item.labelValue.GetOr(JStr("")))
  }

  // JSON string escaping

  const Backslash: char := '\\'
  const Quote: char := '"'
  const Backspace: char := 8 as char
  const FormFeed: char := 12 as char

  /** A lower-case hexadecimal digit. */
  function HexDigit(n: nat): char
    requires n < 16
  {
    if n < 10 then ('0' as int + n) as char else ('a' as int + n - 10) as char
  }

  function HexValue(c: char): Option<nat> {
    if '0' <= c <= '9' then Some(c as int - '0' as int)
    else if 'a' <= c <= 'f' then Some(c as int - 'a' as int + 10)
    else if 'A' <= c <= 'F' then Some(c as int - 'A' as int + 10)
    else None
  }

  /** The letter of the two-character escape for `c`, if it has one. */
  function ShortEscape(c: char): Option<char> {
    if c == Quote then Some(Quote)
    else if c == Backslash then Some(Backslash)
    else if c == '\n' then Some('n')
    else if c == '\r' then Some('r')
    else if c == '\t' then Some('t')
    else if c == Backspace then Some('b')
    else if c == FormFeed then Some('f')
    else None
  }

  /** The character a two-character escape letter stands for. */
  function ShortUnescape(e: char): Option<char> {
    if e == Quote then Some(Quote)
    else if e == Backslash then Some(Backslash)
    else if e == '/' then Some('/')
    else if e == 'n' then Some('\n')
    else if e == 'r' then Some('\r')
    else if e == 't' then Some('\t')
    else if e == 'b' then Some(Backspace)
    else if e == 'f' then Some(FormFeed)
    else None
  }

  lemma ShortEscapeInverse(c: char)
    requires ShortEscape(c).Some?
    ensures ShortUnescape(ShortEscape(c).value) == Some(c)
  {
  }

  /** How `json.dumps` writes one character inside a string: quote,
      backslash and the control characters are escaped, everything else
      (non-ASCII included) is written as is. */
  function EscapeChar(c: char): string {
    if ShortEscape(c).Some? then [Backslash, ShortEscape(c).value]
    else if (c as int) < 0x20 then [Backslash, 'u', '0', '0', HexDigit(c as int / 16), HexDigit(c as int % 16)]
    else [c]
  }

  function Escape(s: string): string {
    if |s| == 0 then [] else EscapeChar(s[0]) + Escape(s[1..])
  }

  /** The value of four hexadecimal digits. */
  function HexQuad(t: string): Option<nat>
    requires |t| == 4
  {
    match (HexValue(t[0]), HexValue(t[1]), HexValue(t[2]), HexValue(t[3]))
    case (Some(a), Some(b), Some(c), Some(d)) => Some(((a * 16 + b) * 16 + c) * 16 + d)
    case _ => None
  }

  /** Decodes the body of a JSON string: the inverse of `Escape`. Code
      points are only decoded outside the surrogate range. */
  function Unescape(t: string): Option<string>
    decreases |t|
  {
    if |t| == 0 then Some([])
    else if t[0] != Backslash then
      match Unescape(t[1..])
      case None => None
      case Some(r) => Some([t[0]] + r)
    else if |t| < 2 then None
    else if t[1] == 'u' then
      if |t| < 6 then None
      else match HexQuad(t[2..6])
        case None => None
        case Some(v) =>
          if 0xD800 <= v < 0xE000 then None
          else match Unescape(t[6..])
            case None => None
            case Some(r) => Some([v as char] + r)
    else match ShortUnescape(t[1])
      case None => None
      case Some(c) =>
        match Unescape(t[2..])
        case None => None
        case Some(r) => Some([c] + r)
  }

  lemma HexDigitValue(n: nat)
    requires n < 16
    ensures HexValue(HexDigit(n)) == Some(n)
  {
  }

  /** Decoding one escaped character and then the rest. */
  lemma UnescapeChar(c: char, rest: string)
    ensures Unescape(EscapeChar(c) + rest)
            == match Unescape(rest) case None => None case Some(r) => Some([c] + r)
  {
    var t := EscapeChar(c) + rest;
    if ShortEscape(c).Some? {
      ShortEscapeInverse(c);
      assert t[2..] == rest;
    } else if (c as int) < 0x20 {
      var n := c as int;
      HexDigitValue(n / 16);
      HexDigitValue(n % 16);
      assert t[2..6] == ['0', '0', HexDigit(n / 16), HexDigit(n % 16)];
      assert HexQuad(t[2..6]) == Some(n);
      assert t[6..] == rest;
    } else {
      assert t[1..] == rest;
    }
  }

  /** Escaping round-trips: decoding the escaped text gives it back. */
  lemma {:induction false} UnescapeEscape(s: string)
    ensures Unescape(Escape(s)) == Some(s)
  {
    if |s| > 0 {
      UnescapeEscape(s[1..]);
      UnescapeChar(s[0], Escape(s[1..]));
      assert [s[0]] + s[1..] == s;
    }
  }

  function Count(c: char, s: string): nat {
    if |s| == 0 then 0 else (if s[0] == c then 1 else 0) + Count(c, s[1..])
  }

  lemma {:induction false} CountAppend(c: char, a: string, b: string)
    ensures Count(c, a + b) == Count(c, a) + Count(c, b)
  {
    if |a| > 0 {
      assert (a + b)[1..] == a[1..] + b;
      CountAppend(c, a[1..], b);
    } else {
      assert a + b == b;
    }
  }

  /** A character that does not occur is counted zero times. */
  lemma {:induction false} CountAbsent(c: char, s: string)
    requires c !in s
    ensures Count(c, s) == 0
  {
    if |s| > 0 {
      assert forall x :: x in s[1..] ==> x in s;
      CountAbsent(c, s[1..]);
    }
  }

  lemma EscapeCharNoNewline(c: char)
    ensures Count('\n', EscapeChar(c)) == 0
  {
    CountAbsent('\n', EscapeChar(c));
  }

  /** Escaped text has no raw line break. */
  lemma {:induction false} EscapeNoNewline(s: string)
    ensures Count('\n', Escape(s)) == 0
  {
    if |s| > 0 {
      EscapeNoNewline(s[1..]);
      EscapeCharNoNewline(s[0]);
      CountAppend('\n', EscapeChar(s[0]), Escape(s[1..]));
    }
  }

  // Record encoding

  function Digit(n: nat): char
    requires n < 10
  {
    ('0' as int + n) as char
  }

  /** The decimal digits of `n`. */
  function NatText(n: nat): (r: string)
    ensures Count('\n', r) == 0
  {
    if n < 10 then [Digit(n)]
    else
      CountAppend('\n', NatText(n / 10), [Digit(n % 10)]);
      NatText(n / 10) + [Digit(n % 10)]
  }

  function Encode(v: JsonValue): string {
    match v
    case JNull => "null"
    case JInt(i) => if i < 0 then "-" + NatText(-i) else NatText(i)
    case JStr(s) => [Quote] + Escape(s) + [Quote]
  }

  const TextKey := "{\"text\": "
  const LabelKey := ",\"label\": "
  const RecordEnd := "}"

  /** `json.dumps(record, separators=(',', ': '), ensure_ascii=False)`. */
  function EncodeRecord(r: Record): string {
    TextKey + Encode(r.text) + LabelKey + Encode(r.classLabel) + RecordEnd
  }

  lemma EncodeNoNewline(v: JsonValue)
    ensures Count('\n', Encode(v)) == 0
  {
    match v
    case JNull =>
      CountAbsent('\n', "null");
    case JInt(i) =>
      if i < 0 {
        CountAbsent('\n', "-");
        CountAppend('\n', "-", NatText(-i));
      }
    case JStr(s) =>
      EscapeNoNewline(s);
      CountAbsent('\n', [Quote]);
      CountAppend('\n', [Quote], Escape(s));
      CountAppend('\n', [Quote] + Escape(s), [Quote]);
  }

  lemma KeysNoNewline()
    ensures Count('\n', TextKey) == 0 && Count('\n', LabelKey) == 0 && Count('\n', RecordEnd) == 0
  {
    CountAbsent('\n', TextKey);
    CountAbsent('\n', LabelKey);
    CountAbsent('\n', RecordEnd);
  }

  /** A record's encoding fits on one line. */
  lemma EncodeRecordNoNewline(r: Record)
    ensures Count('\n', EncodeRecord(r)) == 0
  {
    var a := Encode(r.text);
    var b := Encode(r.classLabel);
    EncodeNoNewline(r.text);
    EncodeNoNewline(r.classLabel);
    KeysNoNewline();
    CountAppend('\n', TextKey, a);
    CountAppend('\n', TextKey + a, LabelKey);
    CountAppend('\n', TextKey + a + LabelKey, b);
    CountAppend('\n', TextKey + a + LabelKey + b, RecordEnd);
  }

  // The array writer

  const Open := "[\n"
  const Close := "]\n"
  const ItemSeparator := ",\n"

  /** The JSON array text: the lines `[`, the records separated by `,`
      line breaks with a bare line break after the last, and `]`. */
  function ArrayText(lines: seq<string>): string {
    Open + (if |lines| == 0 then "" else Join(ItemSeparator, lines) + "\n") + Close
  }

  /** Joining one more part adds one separator. */
  lemma {:induction false} JoinAppend(sep: string, parts: seq<string>, x: string)
    requires |parts| > 0
    ensures Join(sep, parts + [x]) == Join(sep, parts) + sep + x
  {
    if |parts| > 1 {
      assert (parts + [x])[1..] == parts[1..] + [x];
      JoinAppend(sep, parts[1..], x);
    } else {
      assert parts + [x] == [parts[0], x];
      assert [parts[0], x][1..] == [x];
    }
  }

  /** What follows the `i`-th line of `n`: the separator, or a bare line
      break after the last one. */
  function Terminator(n: nat, i: nat): string {
    if i < n - 1 then ItemSeparator else "\n"
  }

  /** The text after the write loop has handled the first `i` lines. */
  function Written(lines: seq<string>, i: nat): string
    requires i <= |lines|
  {
    if i == 0 then Open
    else Open + Join(ItemSeparator, lines[..i]) + Terminator(|lines|, i - 1)
  }

  /** One loop step: the line, then its terminator. */
  lemma WrittenStep(lines: seq<string>, i: nat)
    requires i < |lines|
    ensures Written(lines, i + 1) == Written(lines, i) + lines[i] + Terminator(|lines|, i)
  {
    var t := Terminator(|lines|, i);
    var x := lines[i];
    if i > 0 {
      var j := Join(ItemSeparator, lines[..i]);
      assert lines[..i + 1] == lines[..i] + [x];
      JoinAppend(ItemSeparator, lines[..i], x);
      var u := Terminator(|lines|, i - 1);
      assert u == ItemSeparator;
      assert Written(lines, i + 1) == Open + (j + ItemSeparator + x) + t;
      assert Written(lines, i) == Open + j + ItemSeparator;
    } else {
      assert lines[..1] == [x];
      assert Written(lines, 1) == Open + x + t;
    }
  }

  lemma WrittenAll(lines: seq<string>)
    ensures Written(lines, |lines|) + Close == ArrayText(lines)
  {
    assert lines[..|lines|] == lines;
  }

  function EncodeAll(records: seq<Record>): (lines: seq<string>)
    ensures |lines| == |records|
    ensures forall k :: 0 <= k < |records| ==> lines[k] == EncodeRecord(records[k])
  {
    seq(|records|, k requires 0 <= k < |records| => EncodeRecord(records[k]))
  }

  /** `format_labeled_comments`: the records in input order, written one
      per line as a JSON array. */
  method FormatLabeledComments(data: seq<LabeledInput>) returns (records: seq<Record>, text: string)
    ensures |records| == |data|
    ensures forall k :: 0 <= k < |data| ==> records[k] == Format(data[k])
    ensures text == ArrayText(EncodeAll(records))
  {
    records := [];
    for k := 0 to |data|
      invariant |records| == k
      invariant forall j :: 0 <= j < k ==> records[j] == Format(data[j])
    {
      records := records + [Format(data[k])];
    }
    ghost var lines := EncodeAll(records);
    text := Open;
    for i := 0 to |records|
      invariant text == Written(lines, i)
    {
      var line := EncodeRecord(records[i]);
      WrittenStep(lines, i);
      assert line == lines[i];
      if i < |records| - 1 {
        text := text + line + ItemSeparator;
      } else {
        text := text + line + "\n";
      }
    }
    WrittenAll(lines);
    text := text + Close;
  }

  /** An empty input writes exactly `[`, a line break, `]` and a line
      break. */
  lemma EmptyArray()
    ensures ArrayText([]) == "[\n]\n"
  {
  }

  lemma {:induction false} JoinNewlines(lines: seq<string>)
    requires |lines| > 0
    requires forall k :: 0 <= k < |lines| ==> Count('\n', lines[k]) == 0
    ensures Count('\n', Join(ItemSeparator, lines)) == |lines| - 1
  {
    if |lines| > 1 {
      JoinNewlines(lines[1..]);
      CountAppend('\n', lines[0], ItemSeparator);
      CountAppend('\n', lines[0] + ItemSeparator, Join(ItemSeparator, lines[1..]));
    }
  }

  lemma BracketLines()
    ensures Count('\n', Open) == 1 && Count('\n', Close) == 1 && Count('\n', "\n") == 1
  {
    assert Open[1..] == "\n" && Close[1..] == "\n";
    assert "\n"[1..] == [];
  }

  /** Each record takes exactly one line: `n` records give `n + 2` line
      breaks, since the opening and closing brackets take one each, and
      `n - 1` of the record lines end with the separator. */
  lemma ArrayLines(records: seq<Record>)
    ensures Count('\n', ArrayText(EncodeAll(records))) == |records| + 2
  {
    var lines := EncodeAll(records);
    BracketLines();
    if |records| > 0 {
      forall k | 0 <= k < |lines|
        ensures Count('\n', lines[k]) == 0
      {
        EncodeRecordNoNewline(records[k]);
      }
      JoinNewlines(lines);
      var body := Join(ItemSeparator, lines);
      CountAppend('\n', body, "\n");
      CountAppend('\n', Open, body + "\n");
      CountAppend('\n', Open + (body + "\n"), Close);
      assert ArrayText(lines) == Open + (body + "\n") + Close;
    } else {
      CountAppend('\n', Open, Close);
      assert ArrayText(lines) == Open + Close;
    }
  }
}
