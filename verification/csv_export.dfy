/**
 * The CSV text built by the member-list export: header relabelling, cell
 * escaping (section 2 of RFC 4180, rules 6 and 7, except that a lone carriage
 * return is not treated as a line break), date and boolean formatting, and
 * the assembly of the file's content. The Blob and the download link are not
 * part of the model; the content string is.
 */
module CsvExport {
  import opened Seqs
  import opened Text
  import opened Js
  import opened Wrappers

  /** One exported object: its own enumerable properties in enumeration order. */
  type Row = seq<(string, JsValue)>

  const Bom: char := '\U{FEFF}'

  // ------------------------------------------------------------------ dates

  /** Piece `i` of a split, or the text `undefined` that a missing piece interpolates as. */
  function PieceOr(parts: seq<string>, i: nat): string {
    if i < |parts| then parts[i] else "undefined"
  }

  /**
   * `formatarDataParaCSV`: `YYYY-MM-DD` becomes `DD/MM/YYYY`. A falsy value
   * gives the empty string, and so does any other non-string value, because
   * its missing `split` throws and the exception is caught.
   */
  function FormatarDataParaCsv(v: JsValue): (r: string)
    ensures !v.Str? ==> r == ""
    ensures v == Str("") ==> r == ""
  {
    match v
    case Str(s) =>
      if s == "" then ""
      else
        var parts := Split(s, '-');
        PieceOr(parts, 2) + "/" + PieceOr(parts, 1) + "/" + PieceOr(parts, 0)
    case _ => ""
  }

  /** A date `y-m-d` whose parts have no dash is rewritten as `d/m/y`. */
  lemma FormatarDataParaCsvReorders(y: string, m: string, d: string)
    requires '-' !in y && '-' !in m && '-' !in d
    ensures FormatarDataParaCsv(Str(y + "-" + m + "-" + d)) == d + "/" + m + "/" + y
  {
    var parts := [y, m, d];
    SplitJoin(parts, '-');
    assert Join(parts, '-') == y + "-" + m + "-" + d by {
      assert Join(parts[1..], '-') == m + "-" + d by {
        assert parts[1..][1..] == [d];
      }
    }
  }

  /** A value with fewer than three dash-separated pieces shows `undefined` for the missing ones. */
  lemma FormatarDataParaCsvShort(s: string)
    requires s != "" && '-' !in s
    ensures FormatarDataParaCsv(Str(s)) == "undefined/undefined/" + s
  {
    SplitNoSep(s, '-');
  }

  // ---------------------------------------------------------------- escaping

  /** A cell needs quoting when it holds a comma, a double quote or a line feed. */
  predicate NeedsQuotes(s: string) {
    ',' in s || '"' in s || '\n' in s
  }

  /** `s.replace(/"/g, '""')`. */
  function DoubleQuotes(s: string): (r: string)
    ensures |r| >= |s|
  {
    if s == [] then []
    else (if s[0] == '"' then "\"\"" else [s[0]]) + DoubleQuotes(s[1..])
  }

  /** The text of `escaparCSV` for a value already converted to a string. */
  function EscapeText(s: string): (r: string)
    ensures !NeedsQuotes(s) ==> r == s
    ensures NeedsQuotes(s) ==> |r| >= 2 && r[0] == '"' && r[|r| - 1] == '"'
  {
    if NeedsQuotes(s) then "\"" + DoubleQuotes(s) + "\"" else s
  }

  /**
   * `escaparCSV`: `null` and `undefined` become the empty cell; anything
   * else is converted with `String(...)` and quoted when it needs it.
   */
  function EscaparCsv(v: JsValue): (r: string)
    ensures v.Nullish() ==> r == ""
    ensures !v.Nullish() && !NeedsQuotes(ToJsString(v)) ==> r == ToJsString(v)
  {
    if v.Nullish() then "" else EscapeText(ToJsString(v))
  }

  /** Collapsing every `""` back to `"`. */
  function CollapseQuotes(t: string): string {
    if |t| >= 2 && t[0] == '"' && t[1] == '"' then "\"" + CollapseQuotes(t[2..])
    else if t == [] then []
    else [t[0]] + CollapseQuotes(t[1..])
  }

  /** Removing the outer quotes of a quoted cell and collapsing its doubled quotes. */
  function UnescapeText(t: string): string {
    if |t| >= 2 && t[0] == '"' && t[|t| - 1] == '"' then CollapseQuotes(t[1..|t| - 1]) else t
  }

  lemma {:induction false} CollapseDoubled(s: string)
    ensures CollapseQuotes(DoubleQuotes(s)) == s
  {
    if s != [] {
      CollapseDoubled(s[1..]);
      var rest := DoubleQuotes(s[1..]);
      if s[0] == '"' {
        assert DoubleQuotes(s) == "\"\"" + rest;
        assert (DoubleQuotes(s))[2..] == rest;
      } else {
        assert DoubleQuotes(s) == [s[0]] + rest;
        assert (DoubleQuotes(s))[1..] == rest;
      }
      assert s == [s[0]] + s[1..];
    }
  }

  /** Unescaping an escaped cell gives back the text. */
  lemma EscapeRoundTrip(s: string)
    ensures UnescapeText(EscapeText(s)) == s
  {
    if NeedsQuotes(s) {
      var t := "\"" + DoubleQuotes(s) + "\"";
      assert t[1..|t| - 1] == DoubleQuotes(s);
      CollapseDoubled(s);
    }
  }

  /** A lone carriage return does not trigger quoting: the cell is emitted as it is. */
  lemma CarriageReturnNotQuoted()
    ensures EscaparCsv(Str("a\rb")) == "a\rb"
  {
  }

  // ----------------------------------------------------------- field values

  /** Fields whose name mentions `data`, `nascimento` or `batismo` hold dates. */
  predicate IsDateField(campo: string) {
    Contains(campo, "data") || Contains(campo, "nascimento") || Contains(campo, "batismo")
  }

  /**
   * `formatarValor`: date fields go through the date formatter (and are not
   * escaped), booleans become `Sim`/`Não`, everything else is escaped.
   */
  function FormatarValor(v: JsValue, campo: string): (r: string)
    ensures IsDateField(campo) ==> r == FormatarDataParaCsv(v)
    ensures !IsDateField(campo) && v == Bool(true) ==> r == "Sim"
    ensures !IsDateField(campo) && v == Bool(false) ==> r == "Não"
    ensures !IsDateField(campo) && !v.Bool? ==> r == EscaparCsv(v)
  {
    if IsDateField(campo) then FormatarDataParaCsv(v)
    else if v.Bool? then (if v.b then "Sim" else "Não")
    else EscaparCsv(v)
  }

  /** `objeto[campo]`: the own property's value, or `undefined` when the object lacks it (inherited properties are not modelled). */
  function FieldValue(row: Row, campo: string): JsValue {
    Lookup(row, campo).GetOr(Undefined)
  }

  // ---------------------------------------------------------------- headers

  /**
   * `mapeamentoCampos[campo] || campo`: the mapped label when the mapping
   * gives a truthy value, the field name otherwise. The mapping is read as
   * its own entries; a name that `Object.prototype` defines is not modelled.
   */
  function HeaderLabel(mapeamento: map<string, JsValue>, campo: string): (shown: JsValue)
    ensures campo in mapeamento && mapeamento[campo].Truthy() ==> shown == mapeamento[campo]
    ensures !(campo in mapeamento && mapeamento[campo].Truthy()) ==> shown == Str(campo)
  {
    if campo in mapeamento && mapeamento[campo].Truthy() then mapeamento[campo] else Str(campo)
  }

  /** The escaped header cells, one per field, in field order. */
  function HeaderCells(cabecalhos: seq<string>, mapeamento: map<string, JsValue>): (cells: seq<string>)
    ensures |cells| == |cabecalhos|
    ensures forall i :: 0 <= i < |cabecalhos| ==> cells[i] == EscaparCsv(HeaderLabel(mapeamento, cabecalhos[i]))
  {
    seq(|cabecalhos|, i requires 0 <= i < |cabecalhos| => EscaparCsv(HeaderLabel(mapeamento, cabecalhos[i])))
  }

  /** The formatted cells of one row: one per header, in header order. */
  function RowCells(cabecalhos: seq<string>, objeto: Row): (cells: seq<string>)
    ensures |cells| == |cabecalhos|
    ensures forall i :: 0 <= i < |cabecalhos| ==> cells[i] == FormatarValor(FieldValue(objeto, cabecalhos[i]), cabecalhos[i])
  {
    seq(|cabecalhos|, i requires 0 <= i < |cabecalhos| => FormatarValor(FieldValue(objeto, cabecalhos[i]), cabecalhos[i]))
  }

  /** The lines of the file: the header line, then one line per object in input order. */
  function CsvLines(dados: seq<Row>, mapeamento: map<string, JsValue>): (lines: seq<string>)
    requires |dados| > 0
    ensures |lines| == |dados| + 1
    ensures lines[0] == Join(HeaderCells(Keys(dados[0]), mapeamento), ',')
    ensures forall k :: 0 <= k < |dados| ==> lines[k + 1] == Join(RowCells(Keys(dados[0]), dados[k]), ',')
  {
    var cabecalhos := Keys(dados[0]);  // `Object.keys(dados[0])`
    [Join(HeaderCells(cabecalhos, mapeamento), ',')]
      + seq(|dados|, k requires 0 <= k < |dados| => Join(RowCells(cabecalhos, dados[k]), ','))
  }

  /**
   * The content `exportarCSV` hands to the Blob: the byte-order mark, then
   * the lines joined by line feeds. Absent or empty data produces no file.
   */
  function ExportarCsv(dados: Option<seq<Row>>, mapeamento: map<string, JsValue>): (content: Option<string>)
    ensures content.None? <==> dados.None? || |dados.value| == 0
    ensures content.Some? ==> |content.value| >= 1 && content.value[0] == Bom
    ensures content.Some? ==> content.value[1..] == Join(CsvLines(dados.value, mapeamento), '\n')
  {
    match dados
    case None => None
    case Some(ds) =>
      if |ds| == 0 then None
      else Some([Bom] + Join(CsvLines(ds, mapeamento), '\n'))
  }

  // ------------------------------------------------------------- reading back

  /**
   * Reads a quoted field's body, after its opening quote, up to the closing
   * quote: a doubled quote stands for one quote. Yields the text and what
   * follows the closing quote.
   */
  function ReadQuoted(s: string): (r: Option<(string, string)>)
    ensures r.Some? ==> |r.value.1| < |s|
  {
    if s == [] then None
    else if s[0] == '"' then
      if |s| >= 2 && s[1] == '"' then
        match ReadQuoted(s[2..])
        case None => None
        case Some(fr) => Some(("\"" + fr.0, fr.1))
      else Some(("", s[1..]))
    else
      match ReadQuoted(s[1..])
      case None => None
      case Some(fr) => Some(([s[0]] + fr.0, fr.1))
  }

  /**
   * Reads one CSV record into its fields, following RFC 4180: a field either
   * is enclosed in double quotes (with doubled quotes inside) or runs up to
   * the next comma.
   */
  function ParseRecord(s: string): Option<seq<string>>
    decreases |s|, 1
  {
    if |s| > 0 && s[0] == '"' then
      match ReadQuoted(s[1..])
      case None => None
      case Some(fr) => AfterField(fr.0, fr.1)
    else
      var i := IndexOf(s, ',');
      AfterField(s[..i], s[i..])
  }

  /**
   * What follows a field's text `x`: the end of the record, or a comma and
   * the remaining fields; anything else is malformed.
   */
  function AfterField(x: string, rest: string): Option<seq<string>>
    decreases |rest|, 0
  {
    if rest == [] then Some([x])
    else if rest[0] == ',' then Prepend(x, ParseRecord(rest[1..]))
    else None
  }

  /** The fields read after a first field `x`, when the rest could be read. */
  function Prepend(x: string, r: Option<seq<string>>): Option<seq<string>> {
    match r
    case None => None
    case Some(fs) => Some([x] + fs)
  }

  lemma {:induction false} ReadQuotedDoubled(x: string, t: string)
    requires t == [] || t[0] != '"'
    ensures ReadQuoted(DoubleQuotes(x) + "\"" + t) == Some((x, t))
  {
    var s := DoubleQuotes(x) + "\"" + t;
    if x == [] {
      assert s == "\"" + t;
      assert s[1..] == t;
    } else {
      ReadQuotedDoubled(x[1..], t);
      var rest := DoubleQuotes(x[1..]) + "\"" + t;
      if x[0] == '"' {
        assert s == "\"\"" + rest;
        assert s[2..] == rest;
      } else {
        assert s == [x[0]] + rest;
        assert s[1..] == rest;
      }
      assert x == [x[0]] + x[1..];
    }
  }

  lemma ReadQuotedCell(x: string, rest: string)
    requires NeedsQuotes(x)
    requires rest == [] || rest[0] == ','
    ensures ParseRecord(EscapeText(x) + rest) == AfterField(x, rest)
  {
    var s := EscapeText(x) + rest;
    var body := DoubleQuotes(x) + "\"" + rest;
    assert s == ['"'] + body;
    assert s[0] == '"' && s[1..] == body;
    ReadQuotedDoubled(x, rest);
    assert ReadQuoted(s[1..]) == Some((x, rest));
  }

  lemma ReadPlainCell(x: string, rest: string)
    requires !NeedsQuotes(x)
    requires rest == [] || rest[0] == ','
    ensures ParseRecord(x + rest) == AfterField(x, rest)
  {
    var s := x + rest;
    if rest == [] {
      assert s == x;
      IndexOfAbsent(x, ',');
    } else {
      assert s == x + [','] + rest[1..];
      IndexOfAfterPrefix(x, ',', rest[1..]);
    }
    assert s[..|x|] == x && s[|x|..] == rest;
    if x != [] {
      assert s[0] == x[0] && x[0] in x;
    }
  }

  /** Reading an escaped cell followed by a comma or the end gives the text and the rest. */
  lemma ReadEscapedCell(x: string, rest: string)
    requires rest == [] || rest[0] == ','
    ensures ParseRecord(EscapeText(x) + rest) == AfterField(x, rest)
  {
    if NeedsQuotes(x) {
      ReadQuotedCell(x, rest);
    } else {
      ReadPlainCell(x, rest);
    }
  }

  /** The escaped cells of a non-empty record joined by commas read back as the texts. */
  lemma {:induction false} ParseEscapedRecord(xs: seq<string>, cells: seq<string>)
    requires |xs| >= 1 && |cells| == |xs|
    requires forall i :: 0 <= i < |xs| ==> cells[i] == EscapeText(xs[i])
    ensures ParseRecord(Join(cells, ',')) == Some(xs)
  {
    if |xs| == 1 {
      ReadEscapedCell(xs[0], []);
      assert cells[0] + [] == cells[0];
      assert xs == [xs[0]];
    } else {
      ParseEscapedRecord(xs[1..], cells[1..]);
      var rest := [','] + Join(cells[1..], ',');
      assert Join(cells, ',') == cells[0] + rest;
      ReadEscapedCell(xs[0], rest);
      assert rest[1..] == Join(cells[1..], ',');
      assert xs == [xs[0]] + xs[1..];
    }
  }

  /** The text of a header label, as the header line shows it once unquoted. */
  function LabelText(mapeamento: map<string, JsValue>, campo: string): string {
    var shown := HeaderLabel(mapeamento, campo);
    if shown.Nullish() then "" else ToJsString(shown)
  }

  /** The header line reads back, as CSV, to the labels of the fields. */
  lemma HeaderLineReadsBack(cabecalhos: seq<string>, mapeamento: map<string, JsValue>)
    requires |cabecalhos| >= 1
    ensures ParseRecord(Join(HeaderCells(cabecalhos, mapeamento), ',')) ==
            Some(seq(|cabecalhos|, i requires 0 <= i < |cabecalhos| => LabelText(mapeamento, cabecalhos[i])))
  {
    var xs := seq(|cabecalhos|, i requires 0 <= i < |cabecalhos| => LabelText(mapeamento, cabecalhos[i]));
    ParseEscapedRecord(xs, HeaderCells(cabecalhos, mapeamento));
  }

  /** The text a cell stands for, before escaping. */
  function CellText(v: JsValue, campo: string): string {
    if IsDateField(campo) then FormatarDataParaCsv(v)
    else if v.Bool? then (if v.b then "Sim" else "Não")
    else if v.Nullish() then "" else ToJsString(v)
  }

  /** Date cells are not escaped, so they read back only when they need no quoting. */
  predicate DatesPlain(cabecalhos: seq<string>, objeto: Row) {
    forall i :: 0 <= i < |cabecalhos| && IsDateField(cabecalhos[i]) ==>
      !NeedsQuotes(FormatarDataParaCsv(FieldValue(objeto, cabecalhos[i])))
  }

  /** A formatted cell is the escaped form of its text, when a date cell needs no quoting. */
  lemma CellEscaped(v: JsValue, campo: string)
    requires IsDateField(campo) ==> !NeedsQuotes(FormatarDataParaCsv(v))
    ensures FormatarValor(v, campo) == EscapeText(CellText(v, campo))
  {
    if !IsDateField(campo) && v.Bool? {
      assert !NeedsQuotes("Sim") && !NeedsQuotes("Não");
    }
  }

  /**
   * A data line reads back, as CSV, to the texts of its cells, provided the
   * unescaped date cells hold no comma, quote or line feed.
   */
  lemma DataLineReadsBack(cabecalhos: seq<string>, objeto: Row)
    requires |cabecalhos| >= 1
    requires DatesPlain(cabecalhos, objeto)
    ensures ParseRecord(Join(RowCells(cabecalhos, objeto), ',')) ==
            Some(seq(|cabecalhos|, i requires 0 <= i < |cabecalhos| => CellText(FieldValue(objeto, cabecalhos[i]), cabecalhos[i])))
  {
    var xs := seq(|cabecalhos|, i requires 0 <= i < |cabecalhos| => CellText(FieldValue(objeto, cabecalhos[i]), cabecalhos[i]));
    var cells := RowCells(cabecalhos, objeto);
    forall i | 0 <= i < |xs| ensures cells[i] == EscapeText(xs[i]) {
      CellEscaped(FieldValue(objeto, cabecalhos[i]), cabecalhos[i]);
    }
    ParseEscapedRecord(xs, cells);
  }
}
