/** The CSV codec of service/FileBackedTaskManager.java: the field escaper
    and unescaper, the quote-aware line splitter, and the conversion of one
    entity to a row and back. Start times are written as whole minutes. */
module Csv {
  import opened Wrappers
  import opened JavaText
  import opened Model

  // ---------------------------------------------------------------------------
  // clearStringForCSV and unescapeCSV
  // ---------------------------------------------------------------------------

  /** `clearStringForCSV`: a null value becomes an empty quoted field;
      otherwise quotes are doubled, CR, LF and TAB removed, the result
      trimmed and wrapped in quotes. The result is the quoted, doubled form
      of the sanitized text. */
  function Escape(v: Option<string>): (r: string)
    ensures v.None? ==> r == "\"\""
    ensures v.Some? ==> r == "\"" + DoubleQuotes(Sanitize(v.value)) + "\""
  {
    match v
    case None => "\"\""
    case Some(s) =>
      EscapeOrder(s);
      "\"" + Trim(StripControls(DoubleQuotes(s))) + "\""
  }

  /** `unescapeCSV`: trim, drop one pair of enclosing quotes, then collapse
      each doubled quote. */
  function Unescape(v: string): (r: string)
    ensures |r| <= |v|
    ensures '"' !in v ==> r == Trim(v)
  {
    if v == [] then []
    else
      var t := Trim(v);
      QuoteFreeTrim(v);
      QuoteFreeCollapse(t);
      var inner := if |t| >= 2 && t[0] == '"' && t[|t| - 1] == '"' then t[1..|t| - 1] else t;
      CollapseQuotes(inner)
  }

  /** Unescaping an escaped field gives back the sanitized text. */
  lemma UnescapeOfEscape(v: Option<string>)
    ensures Unescape(Escape(v)) == (if v.None? then "" else Sanitize(v.value))
  {
    if v.Some? {
      UnescapeOfEscaped(v.value);
    } else {
      UnescapeOfEmpty();
    }
  }

  lemma UnescapeOfEscaped(s: string)
    ensures Unescape(Escape(Some(s))) == Sanitize(s)
  {
    UnescapeOfQuoted(DoubleQuotes(Sanitize(s)));
    CollapseDoubleQuotes(Sanitize(s));
  }

  lemma UnescapeOfEmpty()
    ensures Unescape(Escape(None)) == ""
  {
    var e := "\"\"";
    assert |e| == 2 && e[0] == '"' && e[1] == '"';
    TrimOfTrimmed(e);
    assert e[1..|e| - 1] == [];
  }

  /** Unescaping a quoted text drops the quotes and collapses the pairs. */
  lemma UnescapeOfQuoted(d: string)
    ensures Unescape("\"" + d + "\"") == CollapseQuotes(d)
  {
    var e := "\"" + d + "\"";
    QuotedEnds(d);
    TrimOfTrimmed(e);
    assert e[1..|e| - 1] == d;
  }

  /** A text wrapped in quotes starts and ends with a quote. */
  lemma QuotedEnds(inner: string)
    ensures var r := "\"" + inner + "\""; |r| >= 2 && r[0] == '"' && r[|r| - 1] == '"'
  {
  }

  // ---------------------------------------------------------------------------
  // parseCSVLine
  // ---------------------------------------------------------------------------

  /** The splitter's state machine over the rest of the line: `inQuotes` is
      the quote flag and `current` the field read so far. A quote inside
      quotes followed by another quote yields one quote; any other quote
      flips the flag; a comma outside quotes ends the field; everything else
      is kept. The field in progress is emitted at the end of the line. */
  function Scan(s: string, inQuotes: bool, current: string): (r: seq<string>)
    ensures |r| >= 1
    decreases |s|
  {
    if s == [] then [current]
    else if s[0] == '"' then
      if inQuotes && |s| >= 2 && s[1] == '"' then Scan(s[2..], inQuotes, current + "\"")
      else Scan(s[1..], !inQuotes, current)
    else if s[0] == ',' && !inQuotes then [current] + Scan(s[1..], false, "")
    else Scan(s[1..], inQuotes, current + [s[0]])
  }

  /** The commas of `s` that separate fields: those preceded by an even
      number of quotes when starting outside quotes (odd when starting
      inside). A doubled quote counts twice, so it does not change which
      side a comma is on. */
  function UnquotedCommas(s: string, inQuotes: bool): nat
    decreases |s|
  {
    if s == [] then 0
    else (if s[0] == ',' && !inQuotes then 1 else 0) + UnquotedCommas(s[1..], if s[0] == '"' then !inQuotes else inQuotes)
  }

  /** The splitter emits one field more than there are separating commas. */
  lemma {:induction false} ScanCount(s: string, inQuotes: bool, current: string)
    ensures |Scan(s, inQuotes, current)| == 1 + UnquotedCommas(s, inQuotes)
    decreases |s|
  {
    if s != [] {
      if s[0] == '"' {
        if inQuotes && |s| >= 2 && s[1] == '"' {
          ScanCount(s[2..], inQuotes, current + "\"");
          assert s[1..][0] == '"' && s[1..][1..] == s[2..];
        } else {
          ScanCount(s[1..], !inQuotes, current);
        }
      } else if s[0] == ',' && !inQuotes {
        ScanCount(s[1..], false, "");
      } else {
        ScanCount(s[1..], inQuotes, current + [s[0]]);
      }
    }
  }

  /** `parseCSVLine`: the empty line has no fields; any other line has one
      field more than it has commas outside quotes. */
  function ParseCsvLine(line: string): (r: seq<string>)
    ensures line == [] <==> r == []
    ensures line != [] ==> |r| == 1 + UnquotedCommas(line, false)
  {
    if line == [] then []
    else
      ScanCount(line, false, "");
      Scan(line, false, "")
  }

  /** The source's loop, with its index skipping the second quote of a
      doubled pair. */
  method ParseCsvLineLoop(line: string) returns (fields: seq<string>)
    ensures fields == ParseCsvLine(line)
  {
    fields := [];
    if line == [] {
      return;
    }
    var current := "";
    var inQuotes := false;
    var i := 0;
    while i < |line|
      invariant 0 <= i <= |line|
      invariant fields + Scan(line[i..], inQuotes, current) == Scan(line, false, "")
      decreases |line| - i
    {
      var c := line[i];
      ghost var rest := line[i..];
      assert rest[0] == c && rest[1..] == line[i + 1..];
      if c == '"' {
        if inQuotes && i + 1 < |line| && line[i + 1] == '"' {
          assert rest[1] == '"' && rest[2..] == line[i + 2..];
          current := current + "\"";
          i := i + 2;
        } else {
          inQuotes := !inQuotes;
          i := i + 1;
        }
      } else if c == ',' && !inQuotes {
        assert fields + Scan(rest, inQuotes, current) == (fields + [current]) + Scan(line[i + 1..], false, "");
        fields := fields + [current];
        current := "";
        i := i + 1;
      } else {
        current := current + [c];
        i := i + 1;
      }
    }
    assert line[i..] == [];
    fields := fields + [current];
  }

  // ---------------------------------------------------------------------------
  // Cells: what the writer puts between commas
  // ---------------------------------------------------------------------------

  /** A field as written: bare text (numbers, names, empty), or a quoted
      value with its quotes doubled. */
  datatype Cell = Plain(text: string) | Quoted(value: string)

  /** Bare text must hold no quote and no comma to read back unchanged. */
  predicate WellFormed(c: Cell) {
    c.Plain? ==> forall i :: 0 <= i < |c.text| ==> c.text[i] != '"' && c.text[i] != ','
  }

  function CellText(c: Cell): string {
    match c
    case Plain(t) => t
    case Quoted(v) => "\"" + DoubleQuotes(v) + "\""
  }

  function CellValue(c: Cell): string {
    match c
    case Plain(t) => t
    case Quoted(v) => v
  }

  function Texts(cells: seq<Cell>): (r: seq<string>)
    ensures |r| == |cells| && forall i :: 0 <= i < |cells| ==> r[i] == CellText(cells[i])
  {
    seq(|cells|, i requires 0 <= i < |cells| => CellText(cells[i]))
  }

  function Values(cells: seq<Cell>): (r: seq<string>)
    ensures |r| == |cells| && forall i :: 0 <= i < |cells| ==> r[i] == CellValue(cells[i])
  {
    seq(|cells|, i requires 0 <= i < |cells| => CellValue(cells[i]))
  }

  /** Bare text outside quotes is copied into the field. */
  lemma {:induction false} ScanPlain(p: string, rest: string, current: string)
    requires forall i :: 0 <= i < |p| ==> p[i] != '"' && p[i] != ','
    ensures Scan(p + rest, false, current) == Scan(rest, false, current + p)
    decreases |p|
  {
    if p != [] {
      assert (p + rest)[0] == p[0];
      assert (p + rest)[1..] == p[1..] + rest;
      ScanPlain(p[1..], rest, current + [p[0]]);
      assert current + [p[0]] + p[1..] == current + p;
    } else {
      assert p + rest == rest && current + p == current;
    }
  }

  /** Inside quotes, a doubled-quote text followed by a closing quote is
      read back as the text, and the quote flag is left clear. */
  lemma {:induction false} ScanQuoted(v: string, rest: string, current: string)
    requires rest == [] || rest[0] != '"'
    ensures Scan(DoubleQuotes(v) + "\"" + rest, true, current) == Scan(rest, false, current + v)
    decreases |v|
  {
    var s := DoubleQuotes(v) + "\"" + rest;
    if v == [] {
      assert s == "\"" + rest;
      assert s[1..] == rest;
      assert current + v == current;
    } else {
      var tail := DoubleQuotes(v[1..]) + "\"" + rest;
      assert s == QuoteOf(v[0]) + tail;
      ScanQuoted(v[1..], rest, current + [v[0]]);
      assert current + [v[0]] + v[1..] == current + v;
      if v[0] == '"' {
        assert s[0] == '"' && s[1] == '"' && s[2..] == tail;
        assert current + "\"" == current + [v[0]];
      } else {
        assert s[0] == v[0] && s[1..] == tail;
      }
    }
  }

  /** A well-formed cell followed by the end of the line or a comma is read
      back as its value. */
  lemma ScanCell(c: Cell, rest: string, current: string)
    requires WellFormed(c)
    requires rest == [] || rest[0] == ','
    ensures Scan(CellText(c) + rest, false, current) == Scan(rest, false, current + CellValue(c))
  {
    match c
    case Plain(t) =>
      ScanPlain(t, rest, current);
    case Quoted(v) =>
      var s := CellText(c) + rest;
      assert s[0] == '"' && s[1..] == DoubleQuotes(v) + "\"" + rest;
      ScanQuoted(v, rest, current);
  }

  /** Splitting the comma-joined texts of well-formed cells gives back
      their values, one field per cell. */
  lemma {:induction false} ScanJoined(cells: seq<Cell>)
    requires |cells| >= 1
    requires forall i :: 0 <= i < |cells| ==> WellFormed(cells[i])
    ensures Scan(JoinComma(Texts(cells)), false, "") == Values(cells)
    decreases |cells|
  {
    if |cells| == 1 {
      ScanSingle(cells[0]);
    } else {
      var v0 := CellValue(cells[0]);
      var more := cells[1..];
      var tail := JoinComma(Texts(more));
      JoinStep(cells);
      ScanCell(cells[0], "," + tail, "");
      assert "" + v0 == v0;
      ScanComma(v0, tail);
      assert forall i :: 0 <= i < |more| ==> WellFormed(more[i]) by {
        forall i | 0 <= i < |more| ensures WellFormed(more[i]) {
          assert more[i] == cells[i + 1];
        }
      }
      ScanJoined(more);
      ValuesStep(cells);
    }
  }

  lemma ValuesStep(cells: seq<Cell>)
    requires |cells| >= 1
    ensures Values(cells) == [CellValue(cells[0])] + Values(cells[1..])
  {
    assert Values(cells)[1..] == Values(cells[1..]);
  }

  lemma ScanSingle(c: Cell)
    requires WellFormed(c)
    ensures Scan(JoinComma(Texts([c])), false, "") == Values([c])
  {
    ScanCell(c, [], "");
    assert CellText(c) + [] == JoinComma(Texts([c]));
    assert "" + CellValue(c) == CellValue(c);
  }

  lemma JoinStep(cells: seq<Cell>)
    requires |cells| >= 2
    ensures JoinComma(Texts(cells)) == CellText(cells[0]) + ("," + JoinComma(Texts(cells[1..])))
  {
    assert Texts(cells)[1..] == Texts(cells[1..]);
  }

  /** A comma outside quotes closes the field read so far. */
  lemma ScanComma(v: string, tail: string)
    ensures Scan("," + tail, false, v) == [v] + Scan(tail, false, "")
  {
    assert ("," + tail)[0] == ',' && ("," + tail)[1..] == tail;
  }

  // ---------------------------------------------------------------------------
  // toString: one entity as a row
  // ---------------------------------------------------------------------------

  /** CSV_HEADER. */
  const Header: string := "id" + ",type,name,status,description,duration,startTime,epic"

  /** `TypeTask.name()`. */
  function KindName(k: Kind): string {
    match k
    case TaskKind => "TASK"
    case EpicKind => "EPIC"
    case SubtaskKind => "SUBTASK"
  }

  /** `TypeTask.valueOf`: only an exact constant name is accepted. */
  function KindNamed(s: string): (r: Option<Kind>)
    ensures r.Some? ==> KindName(r.value) == s
    ensures forall k :: s == KindName(k) ==> r == Some(k)
  {
    if s == "TASK" then Some(TaskKind)
    else if s == "EPIC" then Some(EpicKind)
    else if s == "SUBTASK" then Some(SubtaskKind)
    else None
  }

  /** `TaskStatus.name()`. */
  function StatusName(st: Status): string {
    match st
    case New => "NEW"
    case InProgress => "IN_PROGRESS"
    case Done => "DONE"
  }

  /** `TaskStatus.valueOf`. */
  function StatusNamed(s: string): (r: Option<Status>)
    ensures r.Some? ==> StatusName(r.value) == s
    ensures forall st :: s == StatusName(st) ==> r == Some(st)
  {
    if s == "NEW" then Some(New)
    else if s == "IN_PROGRESS" then Some(InProgress)
    else if s == "DONE" then Some(Done)
    else None
  }

  /** An optional number as written: its decimal form, or nothing. */
  function OptionalNumber(v: Option<int>): string {
    match v
    case Some(n) => IntToString(n)
    case None => ""
  }

  /** The epic column: the owning epic's id for a subtask, empty otherwise. */
  function EpicColumn(x: Item): string {
    match x
    case SubtaskItem(st) => IntToString(st.epicId)
    case _ => ""
  }

  /** `toString(task)`: id, type, escaped title, status, escaped
      description, duration in minutes, start time, epic id. */
  function ToRow(x: Item): (r: string)
    ensures r == JoinComma(Texts(RowCells(x)))
    ensures ParseCsvLine(r) == Values(RowCells(x))
  {
    var cells := RowCells(x);
    RowFieldsAreCellTexts(x);
    ScanJoined(cells);
    var r := JoinComma(RowFields(x));
    assert r != [] by {
      assert |Scan(r, false, "")| == RowWidth;
    }
    r
  }

  /** Number of fields in a row, as in the header. */
  const RowWidth: nat := 8

  /** The eight fields `toString(task)` joins. */
  function RowFields(x: Item): (r: seq<string>)
    ensures |r| == RowWidth
  {
    seq(RowWidth, i requires 0 <= i < RowWidth => FieldAt(x, i))
  }

  /** Field `i` of the row: the title (2) and description (4) escaped,
      the other six bare. */
  function FieldAt(x: Item, i: nat): string
    requires i < RowWidth
  {
    if i == 2 || i == 4 then Escape(Some(TextAt(x, i))) else PlainAt(x, i)
  }

  /** The free-text fields: the title at 2, the description at 4. */
  function TextAt(x: Item, i: nat): string
    requires i == 2 || i == 4
  {
    if i == 2 then BaseOf(x).title else BaseOf(x).description
  }

  /** The bare fields: id, type, status, duration, start time, epic id. */
  function PlainAt(x: Item, i: nat): string
    requires i < RowWidth && i != 2 && i != 4
  {
    var t := BaseOf(x);
    if i == 0 then IntToString(t.id)
    else if i == 1 then KindName(KindOf(x))
    else if i == 3 then StatusName(t.status)
    else if i == 5 then OptionalNumber(t.duration)
    else if i == 6 then OptionalNumber(t.startTime)
    else EpicColumn(x)
  }

  /** The eight cells of a row. */
  function RowCells(x: Item): (r: seq<Cell>)
    ensures |r| == RowWidth
    ensures forall i :: 0 <= i < RowWidth ==> r[i] == CellAt(x, i) && WellFormed(r[i])
  {
    seq(RowWidth, i requires 0 <= i < RowWidth => CellAt(x, i))
  }

  /** Cell `i` of the row: the title and description are quoted, the rest
      bare. */
  function CellAt(x: Item, i: nat): (c: Cell)
    requires i < RowWidth
    ensures WellFormed(c)
    ensures CellText(c) == FieldAt(x, i)
  {
    if i == 2 || i == 4 then
      EscapedIsQuotedCell(TextAt(x, i));
      Quoted(Sanitize(TextAt(x, i)))
    else
      PlainFieldIsPlain(x, i);
      Plain(PlainAt(x, i))
  }

  /** An escaped text is the quoted cell of its sanitized form. */
  lemma EscapedIsQuotedCell(s: string)
    ensures Escape(Some(s)) == CellText(Quoted(Sanitize(s)))
  {
  }

  /** The bare fields hold no quote, comma, CR, LF or TAB. */
  lemma PlainFieldIsPlain(x: Item, i: nat)
    requires i < RowWidth && i != 2 && i != 4
    ensures WellFormed(Plain(PlainAt(x, i)))
    ensures NoControls(PlainAt(x, i))
  {
    var t := BaseOf(x);
    if i == 0 {
      NumberIsPlain(t.id);
      NumberHasNoControls(t.id);
    } else if i == 1 || i == 3 {
      NamesArePlain(KindOf(x), t.status);
    } else if i == 5 {
      OptionalNumberIsPlain(t.duration);
      OptionalNumberHasNoControls(t.duration);
    } else if i == 6 {
      OptionalNumberIsPlain(t.startTime);
      OptionalNumberHasNoControls(t.startTime);
    } else {
      EpicColumnIsPlain(x);
      if x.SubtaskItem? {
        NumberHasNoControls(x.subtask.epicId);
      }
    }
  }

  lemma NamesArePlain(k: Kind, st: Status)
    ensures WellFormed(Plain(KindName(k))) && WellFormed(Plain(StatusName(st)))
    ensures NoControls(KindName(k)) && NoControls(StatusName(st))
  {
    KindNameIsPlain(k);
    StatusNameIsPlain(st);
  }

  lemma KindNameIsPlain(k: Kind)
    ensures WellFormed(Plain(KindName(k))) && NoControls(KindName(k))
  {
    var n := KindName(k);
    assert forall i :: 0 <= i < |n| ==> 'A' <= n[i] <= 'Z';
  }

  lemma StatusNameIsPlain(st: Status)
    ensures WellFormed(Plain(StatusName(st))) && NoControls(StatusName(st))
  {
    var n := StatusName(st);
    assert forall i :: 0 <= i < |n| ==> 'A' <= n[i] <= 'Z' || n[i] == '_';
  }

  lemma NumberIsPlain(n: int)
    ensures WellFormed(Plain(IntToString(n)))
  {
    var s := IntToString(n);
    forall i | 0 <= i < |s|
      ensures s[i] != '"' && s[i] != ','
    {
      assert s[i] == '-' || IsDigit(s[i]);
    }
  }

  lemma EpicColumnIsPlain(x: Item)
    ensures WellFormed(Plain(EpicColumn(x)))
  {
    if x.SubtaskItem? {
      NumberIsPlain(x.subtask.epicId);
    }
  }

  lemma OptionalNumberIsPlain(v: Option<int>)
    ensures WellFormed(Plain(OptionalNumber(v)))
  {
    if v.Some? {
      NumberIsPlain(v.value);
    }
  }

  lemma RowFieldsAreCellTexts(x: Item)
    ensures RowFields(x) == Texts(RowCells(x))
  {
    var fields := RowFields(x);
    var texts := Texts(RowCells(x));
    forall i | 0 <= i < RowWidth
      ensures fields[i] == texts[i]
    {
      assert texts[i] == CellText(CellAt(x, i));
    }
  }

  /** The values the splitter returns for a row, field by field. */
  lemma RowValueFacts(x: Item)
    ensures var f := Values(RowCells(x)); var t := BaseOf(x);
      && |f| == RowWidth
      && f[0] == IntToString(t.id) && f[1] == KindName(KindOf(x))
      && f[2] == Sanitize(t.title) && f[3] == StatusName(t.status)
      && f[4] == Sanitize(t.description) && f[5] == OptionalNumber(t.duration)
      && f[6] == OptionalNumber(t.startTime) && f[7] == EpicColumn(x)
  {
    var cells := RowCells(x);
    assert cells[0] == CellAt(x, 0) && cells[1] == CellAt(x, 1);
    assert cells[2] == CellAt(x, 2) && cells[3] == CellAt(x, 3);
    assert cells[4] == CellAt(x, 4) && cells[5] == CellAt(x, 5);
    assert cells[6] == CellAt(x, 6) && cells[7] == CellAt(x, 7);
  }

  /** Text with no CR, LF or TAB in it. */
  predicate NoControls(s: string) {
    forall j :: 0 <= j < |s| ==> !IsStripped(s[j])
  }

  /** Rows hold no line break, so each saved row is read back as one line. */
  lemma RowHasNoLineBreak(x: Item, i: int)
    requires 0 <= i < |ToRow(x)|
    ensures ToRow(x)[i] != '\n' && ToRow(x)[i] != '\r'
  {
    CellTextsHaveNoControls(x);
    JoinKeeps(Texts(RowCells(x)), i);
  }

  lemma CellTextsHaveNoControls(x: Item)
    ensures forall k :: 0 <= k < RowWidth ==> NoControls(Texts(RowCells(x))[k])
  {
    var texts := Texts(RowCells(x));
    forall k | 0 <= k < RowWidth
      ensures NoControls(texts[k])
    {
      assert texts[k] == FieldAt(x, k);
      FieldHasNoControls(x, k);
    }
  }

  lemma FieldHasNoControls(x: Item, k: nat)
    requires k < RowWidth
    ensures NoControls(FieldAt(x, k))
  {
    if k == 2 || k == 4 {
      EscapedHasNoControls(TextAt(x, k));
    } else {
      PlainFieldIsPlain(x, k);
    }
  }

  lemma EscapedHasNoControls(s: string)
    ensures NoControls(Escape(Some(s)))
  {
    SanitizedHasNoControls(s);
    QuotedHasNoControls(Sanitize(s));
    EscapedIsQuotedCell(s);
  }

  lemma NumberHasNoControls(n: int)
    ensures NoControls(IntToString(n))
  {
    var s := IntToString(n);
    forall j | 0 <= j < |s|
      ensures !IsStripped(s[j])
    {
      assert s[j] == '-' || IsDigit(s[j]);
    }
  }

  lemma OptionalNumberHasNoControls(v: Option<int>)
    ensures NoControls(OptionalNumber(v))
  {
    if v.Some? {
      NumberHasNoControls(v.value);
    }
  }

  lemma QuotedHasNoControls(v: string)
    requires NoControls(v)
    ensures NoControls(CellText(Quoted(v)))
  {
    NoStrippedInDoubled(v);
    var text := CellText(Quoted(v));
    forall j | 0 <= j < |text|
      ensures !IsStripped(text[j])
    {
      if 0 < j < |text| - 1 {
        assert text[j] == DoubleQuotes(v)[j - 1];
      }
    }
  }

  /** Sanitized text holds no CR, LF or TAB. */
  lemma SanitizedHasNoControls(s: string)
    ensures NoControls(Sanitize(s))
  {
    var c := StripControls(s);
    var front := TrimStart(c);
    NoControlsSlice(c, |c| - |front|);
    NoControlsPrefix(front, |TrimEnd(front)|);
  }

  lemma NoControlsSlice(c: string, from: nat)
    requires NoControls(c) && from <= |c|
    ensures NoControls(c[from..])
  {
    forall j | 0 <= j < |c| - from
      ensures !IsStripped(c[from..][j])
    {
      assert c[from..][j] == c[from + j];
    }
  }

  lemma NoControlsPrefix(c: string, to: nat)
    requires NoControls(c) && to <= |c|
    ensures NoControls(c[..to])
  {
    forall j | 0 <= j < to
      ensures !IsStripped(c[..to][j])
    {
      assert c[..to][j] == c[j];
    }
  }

  /** Doubling quotes adds no control character. */
  lemma {:induction false} NoStrippedInDoubled(s: string)
    requires NoControls(s)
    ensures NoControls(DoubleQuotes(s))
    decreases |s|
  {
    if s != [] {
      NoStrippedInDoubled(s[1..]);
      var d := DoubleQuotes(s);
      var head := QuoteOf(s[0]);
      assert d == head + DoubleQuotes(s[1..]);
      forall j | 0 <= j < |d|
        ensures !IsStripped(d[j])
      {
        if j >= |head| {
          assert d[j] == DoubleQuotes(s[1..])[j - |head|];
        }
      }
    }
  }

  /** A character of the joined text is a comma or a character of a part. */
  lemma {:induction false} JoinKeeps(parts: seq<string>, i: int)
    requires forall k :: 0 <= k < |parts| ==> NoControls(parts[k])
    requires 0 <= i < |JoinComma(parts)|
    ensures !IsStripped(JoinComma(parts)[i])
    decreases |parts|
  {
    if |parts| > 1 {
      var head := parts[0] + ",";
      assert JoinComma(parts) == head + JoinComma(parts[1..]);
      if i >= |head| {
        JoinKeeps(parts[1..], i - |head|);
      }
    }
  }

  // ---------------------------------------------------------------------------
  // fromString: one row back to an entity
  // ---------------------------------------------------------------------------

  /** The exceptions `fromString` can end with. */
  datatype RowError =
    | TooFewFields     // fewer than six fields
    | BadNumber        // Integer.parseInt / Long.parseLong refused a field
    | BadKind          // TypeTask.valueOf refused the type
    | BadStatus        // TaskStatus.valueOf refused the status
    | DurationTooLong  // Duration.ofMinutes overflowed (ArithmeticException)

  /** A duration field: blank means none, otherwise `Long.parseLong`, then
      `Duration.ofMinutes`, which throws when the minutes in seconds do not
      fit in a `long`. */
  function DurationField(s: string): (r: Result<Option<int>, RowError>)
    ensures IsBlank(s) <==> r == Ok(None)
    ensures r.Ok? && r.value.Some? ==> FitsDuration(r.value.value) && ParseDecimal(s) == r.value
    ensures !IsBlank(s) && ParseDecimal(s).Some? && InInt64(ParseDecimal(s).value) ==>
      (r.Ok? <==> FitsDuration(ParseDecimal(s).value))
  {
    if IsBlank(s) then Ok(None)
    else match ParseInt64(s)
      case Some(n) => if FitsDuration(n) then Ok(Some(n)) else Err(DurationTooLong)
      case None => Err(BadNumber)
  }

  /** The longest duration a row can carry is read back. */
  lemma DurationFieldBound()
    ensures DurationField(IntToString(MaxDurationMinutes)) == Ok(Some(MaxDurationMinutes))
  {
    DurationFieldOf(Some(MaxDurationMinutes));
  }

  /** One minute more ends the load. */
  lemma DurationFieldOverflow(n: int)
    requires n == MaxDurationMinutes + 1
    ensures DurationField(IntToString(n)) == Err(DurationTooLong)
  {
    var s := IntToString(n);
    ParseDecimalOfIntToString(n);
    assert !IsJavaWhitespace(s[|s| - 1]);
    assert InInt64(n) && !FitsDuration(n);
  }

  /** A start-time field (absent when the row has only six fields): blank
      means none, otherwise a number of minutes. */
  function StartField(f: seq<string>): (r: Result<Option<int>, RowError>)
    ensures (|f| <= 6 || IsBlank(f[6])) <==> r == Ok(None)
    ensures |f| > 6 && !IsBlank(f[6]) ==>
      (r.Ok? <==> ParseDecimal(f[6]).Some?) && (r.Ok? ==> r.value == ParseDecimal(f[6]))
  {
    if |f| <= 6 || IsBlank(f[6]) then Ok(None)
    else match ParseDecimal(f[6])
      case Some(n) => Ok(Some(n))
      case None => Err(BadNumber)
  }

  /** The epic column of a subtask row: blank or absent means 0. */
  function EpicIdField(f: seq<string>): (r: Result<int, RowError>)
    ensures r.Ok? ==> InInt32(r.value)
    ensures IsBlank(if |f| > 7 then f[7] else "") ==> r == Ok(0)
    ensures |f| > 7 && !IsBlank(f[7]) ==>
      (r.Ok? <==> ParseInt32(f[7]).Some?) && (r.Ok? ==> Some(r.value) == ParseInt32(f[7]))
  {
    var field := if |f| > 7 then f[7] else "";
    if IsBlank(field) then Ok(0)
    else match ParseInt32(field)
      case Some(n) => Ok(n)
      case None => Err(BadNumber)
  }

  /** Everything `fromString` does after splitting, given the text it uses
      for the title and description. An epic is rebuilt with an empty list. */
  function DecodeFields(f: seq<string>, name: string, description: string): (r: Result<Item, RowError>)
    requires |f| >= 6
    ensures r != Err(TooFewFields)
    ensures r.Ok? ==> InInt32(IdOf(r.value)) && KindNamed(f[1]) == Some(KindOf(r.value))
    ensures r.Ok? ==> BaseOf(r.value).title == name && BaseOf(r.value).description == description
    ensures r.Ok? ==> Some(BaseOf(r.value).status) == StatusNamed(f[3])
    ensures r.Ok? && r.value.EpicItem? ==> r.value.epic.subtaskIds == [] && r.value.epic.endTime == None
    ensures r.Ok? && BaseOf(r.value).duration.Some? ==> FitsDuration(BaseOf(r.value).duration.value)
    ensures r.Ok? ==> Ok(BaseOf(r.value).duration) == DurationField(f[5])
    ensures r.Ok? ==> Ok(BaseOf(r.value).startTime) == StartField(f)
    ensures r.Ok? ==> (BaseOf(r.value).startTime.None? <==> (|f| <= 6 || IsBlank(f[6])))
    ensures r.Ok? && r.value.SubtaskItem? ==> Ok(r.value.subtask.epicId) == EpicIdField(f)
    ensures r.Ok? && r.value.SubtaskItem? && (|f| <= 7 || IsBlank(f[7])) ==> r.value.subtask.epicId == 0
  {
    match ParseInt32(f[0])
    case None => Err(BadNumber)
    case Some(id) =>
      match KindNamed(f[1])
      case None => Err(BadKind)
      case Some(kind) =>
        match StatusNamed(f[3])
        case None => Err(BadStatus)
        case Some(status) =>
          match DurationField(f[5])
          case Err(e) => Err(e)
          case Ok(duration) =>
            match StartField(f)
            case Err(e) => Err(e)
            case Ok(start) =>
              var base := Task(name, description, id, status, duration, start);
              match kind
              case TaskKind => Ok(TaskItem(base))
              case EpicKind => Ok(EpicItem(Epic(base, [], None)))
              case SubtaskKind =>
                match EpicIdField(f)
                case Err(e) => Err(e)
                case Ok(epicId) => Ok(SubtaskItem(Subtask(base, epicId)))
  }

  /** `fromString` with the title and description taken as the splitter
      returns them (the splitter has already removed the quoting). */
  function FromString(line: string): (r: Result<Item, RowError>)
    ensures |ParseCsvLine(line)| < 6 <==> r == Err(TooFewFields)
  {
    var f := ParseCsvLine(line);
    if |f| < 6 then Err(TooFewFields) else DecodeFields(f, f[2], f[4])
  }

  /** `fromString` exactly as written: `unescapeCSV` is applied a second
      time to the already unquoted title and description. */
  function FromStringAsWritten(line: string): (r: Result<Item, RowError>)
    ensures |ParseCsvLine(line)| < 6 <==> r == Err(TooFewFields)
  {
    var f := ParseCsvLine(line);
    if |f| < 6 then Err(TooFewFields) else DecodeFields(f, Unescape(f[2]), Unescape(f[4]))
  }

  /** The entity `fromString` builds from the fields of `x`'s row, given
      the title and description it settles on: an epic comes back with an
      empty list and no end time. */
  function Rebuilt(x: Item, title: string, description: string): (r: Item)
    ensures IdOf(r) == IdOf(x) && KindOf(r) == KindOf(x)
    ensures BaseOf(r) == BaseOf(x).(title := title, description := description)
  {
    match x
    case TaskItem(t) => TaskItem(t.(title := title, description := description))
    case EpicItem(e) => EpicItem(Epic(e.base.(title := title, description := description), [], None))
    case SubtaskItem(st) => SubtaskItem(st.(base := st.base.(title := title, description := description)))
  }

  /** What survives a save and reload of one row: the title and description
      are sanitized; an epic loses its list and end time. */
  function Normalized(x: Item): Item {
    Rebuilt(x, Sanitize(BaseOf(x).title), Sanitize(BaseOf(x).description))
  }

  /** The numbers a row can carry: an `int` id and epic id, and a duration
      `Duration.ofMinutes` accepts. */
  predicate RowRepresentable(x: Item) {
    && InInt32(IdOf(x))
    && (BaseOf(x).duration.Some? ==> FitsDuration(BaseOf(x).duration.value))
    && (x.SubtaskItem? ==> InInt32(x.subtask.epicId))
  }

  lemma DurationFieldOf(v: Option<int>)
    requires v.Some? ==> FitsDuration(v.value)
    ensures DurationField(OptionalNumber(v)) == Ok(v)
  {
    if v.Some? {
      FitsDurationIffSecondsFit(v.value);
      ParseDecimalOfIntToString(v.value);
      var s := OptionalNumber(v);
      assert !IsJavaWhitespace(s[|s| - 1]);
    }
  }

  lemma StartFieldOf(f: seq<string>, v: Option<int>)
    requires |f| > 6 && f[6] == OptionalNumber(v)
    ensures StartField(f) == Ok(v)
  {
    if v.Some? {
      ParseDecimalOfIntToString(v.value);
      var s := OptionalNumber(v);
      assert !IsJavaWhitespace(s[|s| - 1]);
    }
  }

  lemma EpicIdFieldOf(f: seq<string>, epicId: int)
    requires InInt32(epicId) && |f| > 7 && f[7] == IntToString(epicId)
    ensures EpicIdField(f) == Ok(epicId)
  {
    ParseDecimalOfIntToString(epicId);
    var s := f[7];
    assert !IsJavaWhitespace(s[|s| - 1]);
  }

  /** Decoding the fields of `x`'s row rebuilds `x` around whatever title
      and description the reader uses. */
  lemma DecodeRowFields(x: Item, title: string, description: string)
    requires RowRepresentable(x)
    ensures DecodeFields(Values(RowCells(x)), title, description) == Ok(Rebuilt(x, title, description))
  {
    var f := Values(RowCells(x));
    var t := BaseOf(x);
    RowValueFacts(x);
    ParseDecimalOfIntToString(t.id);
    assert ParseInt32(f[0]) == Some(t.id);
    assert KindNamed(f[1]) == Some(KindOf(x));
    assert StatusNamed(f[3]) == Some(t.status);
    DurationFieldOf(t.duration);
    StartFieldOf(f, t.startTime);
    if x.SubtaskItem? {
      EpicIdFieldOf(f, x.subtask.epicId);
    }
  }

  /** Every entity whose numbers fit reads back from its row as its
      normalized form. */
  lemma RowRoundTrip(x: Item)
    requires RowRepresentable(x)
    ensures FromString(ToRow(x)) == Ok(Normalized(x))
  {
    RowValueFacts(x);
    DecodeRowFields(x, Sanitize(BaseOf(x).title), Sanitize(BaseOf(x).description));
  }

  /** As written, the title and description are unescaped once more than
      they were escaped. */
  lemma AsWrittenRowRoundTrip(x: Item)
    requires RowRepresentable(x)
    ensures FromStringAsWritten(ToRow(x)) ==
      Ok(Rebuilt(x, Unescape(Sanitize(BaseOf(x).title)), Unescape(Sanitize(BaseOf(x).description))))
  {
    RowValueFacts(x);
    DecodeRowFields(x, Unescape(Sanitize(BaseOf(x).title)), Unescape(Sanitize(BaseOf(x).description)));
  }

  /** Any task titled `"a"` (with the quotes) reloads, as written, titled
      `a`; the corrected reader keeps the quotes. */
  lemma AsWrittenLosesQuotes(t: Task)
    requires t.title == "\"a\"" && RowRepresentable(TaskItem(t))
    ensures FromStringAsWritten(ToRow(TaskItem(t))).Ok?
    ensures BaseOf(FromStringAsWritten(ToRow(TaskItem(t))).value).title == "a"
    ensures FromString(ToRow(TaskItem(t))).Ok?
    ensures BaseOf(FromString(ToRow(TaskItem(t))).value).title == "\"a\""
  {
    QuotedTitleFacts();
    AsWrittenRowRoundTrip(TaskItem(t));
    RowRoundTrip(TaskItem(t));
  }

  lemma QuotedTitleFacts()
    ensures Sanitize("\"a\"") == "\"a\""
    ensures Unescape("\"a\"") == "a"
  {
    QuotedTitleIsClean();
    UnescapeOfQuoted("a");
    assert "\"" + "a" + "\"" == "\"a\"";
    assert CollapseQuotes("a") == "a";
  }

  lemma QuotedTitleIsClean()
    ensures Sanitize("\"a\"") == "\"a\""
  {
    var q := "\"a\"";
    assert q == ['"', 'a', '"'];
    assert StripControls(q) == q by {
      assert forall i :: 0 <= i < |q| ==> !IsStripped(q[i]);
    }
    TrimOfTrimmed(q);
  }
}
