/** Gettext PO records as `createPoString` writes them, with the escaping of
    `poEncode`, and a reader that inverts both. */
module PoFormat {
  import opened Wrappers

  /** `s.replace(/c/g, by)` for a pattern that is one literal character. */
  function ReplaceAll(s: string, c: char, repl: string): string {
    if s == [] then [] else (if s[0] == c then repl else [s[0]]) + ReplaceAll(s[1..], c, repl)
  }

  /** `poEncode`: backslashes doubled first, then quotes escaped, then each
      newline turned into a closing quote, a newline and an opening quote. */
  function PoEncode(s: string): string {
    ReplaceAll(ReplaceAll(ReplaceAll(s, '\\', "\\\\"), '"', "\\\""), '\n', "\"\n\"")
  }

  /** What the three replacements together make of one character. */
  function EscapeChar(c: char): string {
    if c == '\\' then "\\\\"
    else if c == '"' then "\\\""
    else if c == '\n' then "\"\n\""
    else [c]
  }

  lemma {:induction false} ReplaceAllAppend(a: string, b: string, c: char, repl: string)
    ensures ReplaceAll(a + b, c, repl) == ReplaceAll(a, c, repl) + ReplaceAll(b, c, repl)
  {
    if a == [] {
      assert a + b == b;
    } else {
      assert (a + b)[0] == a[0] && (a + b)[1..] == a[1..] + b;
      ReplaceAllAppend(a[1..], b, c, repl);
    }
  }

  lemma ReplaceAllSingle(x: char, c: char, repl: string)
    ensures ReplaceAll([x], c, repl) == if x == c then repl else [x]
  {
    assert [x][1..] == [];
  }

  lemma {:induction false} ReplaceAllAbsent(s: string, c: char, repl: string)
    requires c !in s
    ensures ReplaceAll(s, c, repl) == s
  {
    if s != [] {
      ReplaceAllAbsent(s[1..], c, repl);
      assert s == [s[0]] + s[1..];
    }
  }

  lemma EncodeOneChar(c: char)
    ensures PoEncode([c]) == EscapeChar(c)
  {
    ReplaceAllSingle(c, '\\', "\\\\");
    if c == '\\' {
      ReplaceAllAbsent("\\\\", '"', "\\\"");
      ReplaceAllAbsent("\\\\", '\n', "\"\n\"");
    } else {
      ReplaceAllSingle(c, '"', "\\\"");
      if c == '"' {
        ReplaceAllAbsent("\\\"", '\n', "\"\n\"");
      } else {
        ReplaceAllSingle(c, '\n', "\"\n\"");
      }
    }
  }

  /** `poEncode` works character by character: the escape of the first
      character followed by the encoding of the rest. */
  lemma PoEncodeCons(s: string)
    requires s != []
    ensures PoEncode(s) == EscapeChar(s[0]) + PoEncode(s[1..])
  {
    var head, tail := [s[0]], s[1..];
    assert s == head + tail;
    ReplaceAllAppend(head, tail, '\\', "\\\\");
    var r1h, r1t := ReplaceAll(head, '\\', "\\\\"), ReplaceAll(tail, '\\', "\\\\");
    ReplaceAllAppend(r1h, r1t, '"', "\\\"");
    var r2h, r2t := ReplaceAll(r1h, '"', "\\\""), ReplaceAll(r1t, '"', "\\\"");
    ReplaceAllAppend(r2h, r2t, '\n', "\"\n\"");
    EncodeOneChar(s[0]);
  }

  /** Text with no backslash, quote or newline is written as it is. */
  lemma {:induction false} PoEncodeUnchanged(s: string)
    requires forall i :: 0 <= i < |s| ==> s[i] != '\\' && s[i] != '"' && s[i] != '\n'
    ensures PoEncode(s) == s
  {
    if s != [] {
      PoEncodeCons(s);
      PoEncodeUnchanged(s[1..]);
      assert s == [s[0]] + s[1..];
    } else {
      assert ReplaceAll(s, '\\', "\\\\") == [];
    }
  }

  /** The characters that close a field: a quote and a newline for a quoted
      string, a newline alone for a comment line. */
  function Closing(quoted: bool): string {
    if quoted then "\"\n" else "\n"
  }

  function Prepend(c: char, o: Option<(string, string)>): Option<(string, string)> {
    match o
    case None => None
    case Some((text, rest)) => Some(([c] + text, rest))
  }

  /** Reads back a field written by `poEncode` up to its closing, and returns
      the original text and what follows the closing. A quote that is not
      escaped and does not belong to a `"\n"` continuation, a backslash that
      does not escape a backslash or a quote, or a newline outside a
      continuation, makes the field unreadable. */
  function Unescape(x: string, quoted: bool): (r: Option<(string, string)>)
    ensures r.Some? ==> |r.value.1| < |x|
    decreases |x|
  {
    if x == [] then None
    else if x[0] == '\\' then
      if |x| >= 2 && (x[1] == '\\' || x[1] == '"') then Prepend(x[1], Unescape(x[2..], quoted)) else None
    else if x[0] == '"' then
      if |x| >= 3 && x[1] == '\n' && x[2] == '"' then Prepend('\n', Unescape(x[3..], quoted))
      else if quoted && |x| >= 2 && x[1] == '\n' then Some(([], x[2..]))
      else None
    else if x[0] == '\n' then
      if quoted then None else Some(([], x[1..]))
    else Prepend(x[0], Unescape(x[1..], quoted))
  }

  /** Reading an encoded field gives back the original text: `poEncode` loses
      nothing. A quoted field must not be followed by a quote, which no PO
      line begins with. */
  lemma {:induction false} UnescapePoEncode(s: string, quoted: bool, rest: string)
    requires quoted ==> rest == [] || rest[0] != '"'
    ensures Unescape(PoEncode(s) + Closing(quoted) + rest, quoted) == Some((s, rest))
    decreases |s|
  {
    var x := PoEncode(s) + Closing(quoted) + rest;
    if s == [] {
      assert PoEncode(s) == [];
      assert x == Closing(quoted) + rest;
      if quoted {
        assert x[0] == '"' && x[1] == '\n' && x[2..] == rest;
      } else {
        assert x[0] == '\n' && x[1..] == rest;
      }
    } else {
      var c, y := s[0], PoEncode(s[1..]) + Closing(quoted) + rest;
      PoEncodeCons(s);
      Associate(EscapeChar(c) + PoEncode(s[1..]), Closing(quoted), rest);
      Associate(EscapeChar(c), PoEncode(s[1..]), Closing(quoted) + rest);
      Associate(PoEncode(s[1..]), Closing(quoted), rest);
      UnescapeEscapeChar(c, y, quoted);
      UnescapePoEncode(s[1..], quoted, rest);
      assert [c] + s[1..] == s;
    }
  }

  /** The reader takes the escape of one character back to that character. */
  lemma UnescapeEscapeChar(c: char, y: string, quoted: bool)
    ensures Unescape(EscapeChar(c) + y, quoted) == Prepend(c, Unescape(y, quoted))
  {
    var x := EscapeChar(c) + y;
    if c == '\\' || c == '"' {
      assert x[0] == '\\' && x[1] == c && x[2..] == y;
    } else if c == '\n' {
      assert x[0] == '"' && x[1] == '\n' && x[2] == '"' && x[3..] == y;
    } else {
      assert x[0] == c && x[1..] == y;
    }
  }

  /** Conversely, whatever the reader accepts is exactly an encoded field and
      its closing: the output of `poEncode` holds no quote that is neither
      escaped nor part of a continuation, and nothing else is readable. */
  lemma {:induction false} UnescapeOnlyEncoded(x: string, quoted: bool)
    requires Unescape(x, quoted).Some?
    ensures var (s, rest) := Unescape(x, quoted).value;
      x == PoEncode(s) + Closing(quoted) + rest && (quoted ==> rest == [] || rest[0] != '"')
    decreases |x|
  {
    if x[0] == '\\' {
      UnescapeCons(x, quoted, x[1], 2);
    } else if x[0] == '"' && |x| >= 3 && x[1] == '\n' && x[2] == '"' {
      UnescapeCons(x, quoted, '\n', 3);
    } else if x[0] == '"' || x[0] == '\n' {
      var (s, rest) := Unescape(x, quoted).value;
      assert s == [] && PoEncode(s) == [];
      assert x == Closing(quoted) + rest;
    } else {
      UnescapeCons(x, quoted, x[0], 1);
    }
  }

  /** One step of `UnescapeOnlyEncoded`: the first `k` characters of `x` are the
      escape of `c`, and the rest is read by the recursive call. */
  lemma {:induction false} UnescapeCons(x: string, quoted: bool, c: char, k: nat)
    requires 0 < k <= |x| && x[..k] == EscapeChar(c)
    requires Unescape(x, quoted) == Prepend(c, Unescape(x[k..], quoted))
    requires Unescape(x, quoted).Some?
    ensures var (s, rest) := Unescape(x, quoted).value;
      x == PoEncode(s) + Closing(quoted) + rest && (quoted ==> rest == [] || rest[0] != '"')
    decreases |x|, 0
  {
    var y := x[k..];
    UnescapeOnlyEncoded(y, quoted);
    var (t, rest) := Unescape(y, quoted).value;
    var s := [c] + t;
    assert Unescape(x, quoted).value == (s, rest);
    assert s[0] == c && s[1..] == t;
    PoEncodeCons(s);
    assert x == EscapeChar(c) + y by {
      assert x == x[..k] + y;
    }
    Associate(EscapeChar(c) + PoEncode(t), Closing(quoted), rest);
    Associate(EscapeChar(c), PoEncode(t), Closing(quoted) + rest);
    Associate(PoEncode(t), Closing(quoted), rest);
  }

  /** `poEncode` is injective: two texts with the same encoding are equal. */
  lemma PoEncodeInjective(a: string, b: string)
    requires PoEncode(a) == PoEncode(b)
    ensures a == b
  {
    UnescapePoEncode(a, true, []);
    UnescapePoEncode(b, true, []);
  }

  /** JavaScript truthiness of a string that may be `undefined` or `null`
      (`None`). */
  predicate Truthy(o: Option<string>) {
    o.Some? && o.value != ""
  }

  /** The `#.` extracted-comment line, written only for a truthy description. */
  function CommentLine(descriptionText: Option<string>): string {
    if Truthy(descriptionText) then "#. " + PoEncode(descriptionText.value) + "\n" else ""
  }

  /** The `#:` reference line, written unencoded and only for a truthy id. */
  function ReferenceLine(transId: Option<string>): string {
    if Truthy(transId) then "#: " + transId.value + "\n" else ""
  }

  /** The `msgctxt` line, written only for a truthy meaning. */
  function ContextLine(meaningText: Option<string>): string {
    if Truthy(meaningText) then "msgctxt \"" + PoEncode(meaningText.value) + "\"\n" else ""
  }

  /** The `msgid` line, always written. */
  function MsgidLine(sourceText: string): string {
    "msgid \"" + PoEncode(sourceText) + "\"\n"
  }

  /** The `msgstr` line, written only for a truthy target. */
  function MsgstrLine(targetText: Option<string>): string {
    if Truthy(targetText) then "msgstr \"" + PoEncode(targetText.value) + "\"\n" else ""
  }

  /** `createPoString`: one PO record, its lines appended in the order of the
      source, closed by a blank line. */
  function CreatePoString(sourceText: string, meaningText: Option<string>, descriptionText: Option<string>,
                          transId: Option<string>, targetText: Option<string>): (r: string)
    ensures |r| >= 3 && r[|r| - 3..] == "\"\n\n"
  {
    CommentLine(descriptionText) + ReferenceLine(transId) + ContextLine(meaningText)
    + MsgidLine(sourceText) + MsgstrLine(targetText) + "\n"
  }

  /** A PO entry as a reader sees it; an absent line is `None`. */
  datatype PoEntry = PoEntry(comment: Option<string>, reference: Option<string>,
                             context: Option<string>, msgid: string, msgstr: Option<string>)

  /** A string that is only present when truthy. */
  function IfTruthy(o: Option<string>): Option<string> {
    if Truthy(o) then o else None
  }

  /** The entry a record written by `CreatePoString` stands for: falsy values
      have no line at all. */
  function EntryOf(sourceText: string, meaningText: Option<string>, descriptionText: Option<string>,
                   transId: Option<string>, targetText: Option<string>): PoEntry {
    PoEntry(IfTruthy(descriptionText), IfTruthy(transId), IfTruthy(meaningText), sourceText, IfTruthy(targetText))
  }

  predicate StartsWith(x: string, prefix: string) {
    |prefix| <= |x| && x[..|prefix|] == prefix
  }

  /** Reads an optional encoded line that starts with `prefix`: `Some((None, x))`
      when the line is absent, `None` when it is present but unreadable. */
  function ReadOptional(x: string, prefix: string, quoted: bool): (r: Option<(Option<string>, string)>)
    ensures r.Some? ==> |r.value.1| <= |x|
  {
    if StartsWith(x, prefix) then
      match Unescape(x[|prefix|..], quoted)
      case None => None
      case Some((text, rest)) => Some((Some(text), rest))
    else Some((None, x))
  }

  /** Index of the first newline of `x` at or after `i`, or `|x|`. */
  function LineEnd(x: string, i: nat): (k: nat)
    requires i <= |x|
    ensures i <= k <= |x| && (k < |x| ==> x[k] == '\n')
    ensures forall j :: i <= j < k ==> x[j] != '\n'
    decreases |x| - i
  {
    if i == |x| || x[i] == '\n' then i else LineEnd(x, i + 1)
  }

  /** Reads an optional `#:` reference line, which is not encoded. */
  function ReadReference(x: string): (r: Option<(Option<string>, string)>)
    ensures r.Some? ==> |r.value.1| <= |x|
  {
    if StartsWith(x, "#: ") then
      var k := LineEnd(x, 3);
      if k < |x| then Some((Some(x[3..k]), x[k + 1..])) else None
    else Some((None, x))
  }

  /** Reads the blank line that closes a record. */
  function ReadBlank(x: string): (r: Option<string>)
    ensures r.Some? ==> |r.value| < |x|
  {
    if x != [] && x[0] == '\n' then Some(x[1..]) else None
  }

  /** Reads one record from the front of `x` and returns it with the rest. */
  function ReadRecord(x: string): (r: Option<(PoEntry, string)>)
    ensures r.Some? ==> |r.value.1| < |x|
  {
    match ReadOptional(x, "#. ", false)
    case None => None
    case Some((comment, x1)) =>
      match ReadReference(x1)
      case None => None
      case Some((reference, x2)) =>
        match ReadOptional(x2, "msgctxt \"", true)
        case None => None
        case Some((context, x3)) =>
          match ReadOptional(x3, "msgid \"", true)
          case None => None
          case Some((msgid, x4)) =>
            if msgid.None? then None
            else
              match ReadOptional(x4, "msgstr \"", true)
              case None => None
              case Some((msgstr, x5)) =>
                match ReadBlank(x5)
                case None => None
                case Some(x6) => Some((PoEntry(comment, reference, context, msgid.value, msgstr), x6))
  }

  /** Reads a whole PO text, record after record. */
  function ReadRecords(x: string): Option<seq<PoEntry>>
    decreases |x|
  {
    if x == [] then Some([])
    else
      match ReadRecord(x)
      case None => None
      case Some((e, rest)) =>
        match ReadRecords(rest)
        case None => None
        case Some(es) => Some([e] + es)
  }

  lemma Associate(a: string, b: string, c: string)
    ensures a + b + c == a + (b + c)
  {
  }

  lemma NotStartsWith(x: string, prefix: string, i: nat)
    requires i < |prefix| && i < |x| && x[i] != prefix[i]
    ensures !StartsWith(x, prefix)
  {
  }

  /** An encoded line, present or absent, reads back as its value. */
  lemma ReadOptionalLine(prefix: string, text: Option<string>, quoted: bool, rest: string)
    requires quoted ==> rest == [] || rest[0] != '"'
    requires text.None? ==> !StartsWith(rest, prefix)
    ensures ReadOptional((if text.Some? then prefix + PoEncode(text.value) + Closing(quoted) else "") + rest, prefix, quoted)
            == Some((text, rest))
  {
    if text.Some? {
      var x := prefix + PoEncode(text.value) + Closing(quoted) + rest;
      assert x[..|prefix|] == prefix;
      assert x[|prefix|..] == PoEncode(text.value) + Closing(quoted) + rest;
      UnescapePoEncode(text.value, quoted, rest);
    } else {
      assert "" + rest == rest;
    }
  }

  lemma ReadReferenceLine(transId: Option<string>, rest: string)
    requires Truthy(transId) ==> '\n' !in transId.value
    requires !Truthy(transId) ==> !StartsWith(rest, "#: ")
    ensures ReadReference(ReferenceLine(transId) + rest) == Some((IfTruthy(transId), rest))
  {
    if Truthy(transId) {
      var id := transId.value;
      var x := "#: " + id + "\n" + rest;
      assert ReferenceLine(transId) + rest == x;
      var k := 3 + |id|;
      assert x[..3] == "#: " && x[k] == '\n' && x[3..k] == id && x[k + 1..] == rest;
      assert forall j :: 3 <= j < k ==> x[j] == id[j - 3];
      assert LineEnd(x, 3) == k;
    } else {
      assert ReferenceLine(transId) + rest == rest;
    }
  }

  /** A record is read line by line: each reader hands the text after its
      line to the next. */
  lemma ReadRecordSteps(x: string, x1: string, x2: string, x3: string, x4: string, x5: string, rest: string, e: PoEntry)
    requires ReadOptional(x, "#. ", false) == Some((e.comment, x1))
    requires ReadReference(x1) == Some((e.reference, x2))
    requires ReadOptional(x2, "msgctxt \"", true) == Some((e.context, x3))
    requires ReadOptional(x3, "msgid \"", true) == Some((Some(e.msgid), x4))
    requires ReadOptional(x4, "msgstr \"", true) == Some((e.msgstr, x5))
    requires ReadBlank(x5) == Some(rest)
    ensures ReadRecord(x) == Some((e, rest))
  {
  }

  /** The `msgstr` line and the blank line read back, the blank line giving
      the text after the record. */
  lemma ReadMsgstrLine(targetText: Option<string>, rest: string)
    ensures var x4 := MsgstrLine(targetText) + ("\n" + rest);
            && ReadOptional(x4, "msgstr \"", true) == Some((IfTruthy(targetText), "\n" + rest))
            && ReadBlank("\n" + rest) == Some(rest)
            && x4 != [] && x4[0] in "m\n"
  {
    NotStartsWith("\n" + rest, "msgstr \"", 0);
    ReadOptionalLine("msgstr \"", IfTruthy(targetText), true, "\n" + rest);
  }

  /** The `msgid` line, always present, reads back as the source text. */
  lemma ReadMsgidLine(sourceText: string, x4: string)
    requires x4 != [] && x4[0] in "m\n"
    ensures var x3 := MsgidLine(sourceText) + x4;
            ReadOptional(x3, "msgid \"", true) == Some((Some(sourceText), x4)) && |x3| > 4 && x3[0] == 'm' && x3[4] == 'd'
  {
    ReadOptionalLine("msgid \"", Some(sourceText), true, x4);
  }

  /** The `msgctxt` line, when present, reads back as the meaning. */
  lemma ReadContextLine(meaningText: Option<string>, x3: string)
    requires |x3| > 4 && x3[0] == 'm' && x3[4] == 'd'
    ensures var x2 := ContextLine(meaningText) + x3;
            ReadOptional(x2, "msgctxt \"", true) == Some((IfTruthy(meaningText), x3)) && |x2| > 1 && x2[0] == 'm'
  {
    NotStartsWith(x3, "msgctxt \"", 4);
    ReadOptionalLine("msgctxt \"", IfTruthy(meaningText), true, x3);
  }

  /** The `#:` line, when present, reads back as the id. */
  lemma ReadReferenceBefore(transId: Option<string>, x2: string)
    requires Truthy(transId) ==> '\n' !in transId.value
    requires |x2| > 1 && x2[0] == 'm'
    ensures var x1 := ReferenceLine(transId) + x2;
            ReadReference(x1) == Some((IfTruthy(transId), x2)) && |x1| > 1 && (x1[0] == 'm' || x1[1] == ':')
  {
    NotStartsWith(x2, "#: ", 0);
    ReadReferenceLine(transId, x2);
    ReferenceLineShape(transId, x2);
  }

  lemma ReferenceLineShape(transId: Option<string>, x2: string)
    requires |x2| > 1 && x2[0] == 'm'
    ensures var x1 := ReferenceLine(transId) + x2; |x1| > 1 && (x1[0] == 'm' || x1[1] == ':')
  {
    if Truthy(transId) {
      assert (ReferenceLine(transId) + x2)[1] == ReferenceLine(transId)[1];
    }
  }

  /** The `#.` line, when present, reads back as the description. */
  lemma ReadCommentLine(descriptionText: Option<string>, x1: string)
    requires |x1| > 1 && (x1[0] == 'm' || x1[1] == ':')
    ensures ReadOptional(CommentLine(descriptionText) + x1, "#. ", false) == Some((IfTruthy(descriptionText), x1))
  {
    if x1[0] == 'm' { NotStartsWith(x1, "#. ", 0); } else { NotStartsWith(x1, "#. ", 1); }
    ReadOptionalLine("#. ", IfTruthy(descriptionText), false, x1);
  }

  /** The lines of a record, each followed by the text after it, read back
      one after the other as the entry they were written from. */
  lemma ReadLines(sourceText: string, meaningText: Option<string>, descriptionText: Option<string>,
                  transId: Option<string>, targetText: Option<string>, rest: string)
    requires Truthy(transId) ==> '\n' !in transId.value
    ensures ReadRecord(CommentLine(descriptionText) + (ReferenceLine(transId) + (ContextLine(meaningText)
                       + (MsgidLine(sourceText) + (MsgstrLine(targetText) + ("\n" + rest))))))
            == Some((EntryOf(sourceText, meaningText, descriptionText, transId, targetText), rest))
  {
    var x5 := "\n" + rest;
    var x4 := MsgstrLine(targetText) + x5;
    var x3 := MsgidLine(sourceText) + x4;
    var x2 := ContextLine(meaningText) + x3;
    var x1 := ReferenceLine(transId) + x2;
    ReadMsgstrLine(targetText, rest);
    ReadMsgidLine(sourceText, x4);
    ReadContextLine(meaningText, x3);
    ReadReferenceBefore(transId, x2);
    ReadCommentLine(descriptionText, x1);
    ReadRecordSteps(CommentLine(descriptionText) + x1, x1, x2, x3, x4, x5, rest,
                    EntryOf(sourceText, meaningText, descriptionText, transId, targetText));
  }

  /** A record reads back as the entry it was written from, with its lines in
      the order `#.`, `#:`, `msgctxt`, `msgid`, `msgstr`, falsy values leaving
      no line, and the text after the blank line untouched. The reference is
      written unencoded, so it must not hold a newline. */
  lemma ReadCreatePoString(sourceText: string, meaningText: Option<string>, descriptionText: Option<string>,
                           transId: Option<string>, targetText: Option<string>, rest: string)
    requires Truthy(transId) ==> '\n' !in transId.value
    ensures ReadRecord(CreatePoString(sourceText, meaningText, descriptionText, transId, targetText) + rest)
            == Some((EntryOf(sourceText, meaningText, descriptionText, transId, targetText), rest))
  {
    var comment, reference, context := CommentLine(descriptionText), ReferenceLine(transId), ContextLine(meaningText);
    var msgid, msgstr := MsgidLine(sourceText), MsgstrLine(targetText);
    Associate(comment + reference + context + msgid + msgstr, "\n", rest);
    Associate(comment + reference + context + msgid, msgstr, "\n" + rest);
    Associate(comment + reference + context, msgid, msgstr + ("\n" + rest));
    Associate(comment + reference, context, msgid + (msgstr + ("\n" + rest)));
    Associate(comment, reference, context + (msgid + (msgstr + ("\n" + rest))));
    ReadLines(sourceText, meaningText, descriptionText, transId, targetText, rest);
  }
}
