/**
  The post-processing of the converted manual: the classes given to alert labels,
  tables, rows and colour cells, the PNG test applied to each embedded image, and
  the attributes every image is given. Elements are reduced to the texts the rules
  read from them.
*/
module DocxToHtml {
  import opened Wrappers
  import opened JsString

  // ---------------------------------------------------------------- first matching rule

  /** A keyword and the class it gives. */
  datatype Rule = Rule(keyword: string, cls: string)

  /** The class of the first rule whose keyword occurs in `t`. */
  function FirstRule(rules: seq<Rule>, t: string): (r: Option<string>)
    ensures r.Some? ==> exists i :: (0 <= i < |rules| && Contains(t, rules[i].keyword)
      && r.value == rules[i].cls && forall j :: 0 <= j < i ==> !Contains(t, rules[j].keyword))
    ensures r.None? ==> forall i :: 0 <= i < |rules| ==> !Contains(t, rules[i].keyword)
    decreases |rules|
  {
    if rules == [] then None
    else if Contains(t, rules[0].keyword) then Some(rules[0].cls)
    else
      var r := FirstRule(rules[1..], t);
      assert forall i :: 1 <= i < |rules| ==> rules[i] == rules[1..][i - 1];
      r
  }

  function OptionList(o: Option<string>): seq<string>
  {
    if o.Some? then [o.value] else []
  }

  // ---------------------------------------------------------------- alert labels

  /** The classes a `ul li strong` receives from its text. */
  function AlertClass(text: string): Option<string>
  {
    var t := Lower(text);
    if Contains(t, "red") then Some("alert-color red")
    else if Contains(t, "amber") then Some("alert-color amber")
    else if Contains(t, "blue") then Some("alert-color blue")
    else if Contains(t, "notification") then Some("alert-color gray")
    else None
  }

  function AlertRules(): seq<Rule>
  {
    [Rule("red", "alert-color red"), Rule("amber", "alert-color amber"),
     Rule("blue", "alert-color blue"), Rule("notification", "alert-color gray")]
  }

  /** The alert colour is that of the first keyword, in the order red, amber, blue, notification, found in the text. */
  lemma AlertClassFirstRule(text: string)
    ensures AlertClass(text) == FirstRule(AlertRules(), Lower(text))
  {
    var rs := AlertRules();
    assert rs[1..][1..][1..][1..] == [];
  }

  /** A label whose text merely contains "red", such as "Required", is coloured red. */
  lemma RequiredIsRed()
    ensures AlertClass("Required") == Some("alert-color red")
  {
    var t := Lower("Required");
    assert t[5] == 'r' && t[6] == 'e' && t[7] == 'd';
    assert t[5..8] == "red";
    ContainsAt(t, "red", 5);
  }

  /** The `$("ul li strong").each` loop: one class choice per label, in document order. */
  method ClassifyAlerts(labels: seq<string>) returns (classes: seq<Option<string>>)
    ensures |classes| == |labels|
    ensures forall i :: 0 <= i < |labels| ==> classes[i] == FirstRule(AlertRules(), Lower(labels[i]))
  {
    classes := [];
    for i := 0 to |labels|
      invariant |classes| == i
      invariant forall k :: 0 <= k < i ==> classes[k] == FirstRule(AlertRules(), Lower(labels[k]))
    {
      AlertClassFirstRule(labels[i]);
      classes := classes + [AlertClass(labels[i])];
    }
  }

  // ---------------------------------------------------------------- tables

  /** A `td` cell: its text and the text of its `p` descendants. */
  datatype Cell = Cell(text: string, paragraphText: string)

  /** A `tr` row: its whole text and its `td` cells. */
  datatype TableRow = TableRow(text: string, cells: seq<Cell>)

  const CellColors: seq<string> := ["red", "amber", "blue", "white", "green", "magenta", "cyan", "gray"]

  function CritRules(): seq<Rule>
  {
    [Rule("warning", "crit-warning"), Rule("caution", "crit-caution"),
     Rule("advisory", "crit-advisory"), Rule("notification", "crit-notification")]
  }

  /** A table whose first row names both the CAS wording and the criticality columns. */
  predicate IsCasTable(rows: seq<TableRow>)
  {
    var headerText := if |rows| > 0 then Lower(rows[0].text) else "";
    Contains(headerText, "cas message wording") && Contains(headerText, "criticality")
  }

  function Zebra(j: nat): string
  {
    if j % 2 == 0 then "zebra-even" else "zebra-odd"
  }

  /** The text the colour test reads: the first cell's paragraphs, trimmed and lowercased. */
  function FirstCellText(row: TableRow): string
  {
    Lower(Trim(if |row.cells| > 0 then row.cells[0].paragraphText else ""))
  }

  /** The class a first cell with the text `t` receives. */
  function ColorClass(t: string): Option<string>
  {
    if t in CellColors then Some("color-cell " + t) else None
  }

  /** The text the criticality test reads: the second cell, trimmed and lowercased. */
  function CritText(row: TableRow): string
  {
    Lower(Trim(if |row.cells| > 1 then row.cells[1].text else ""))
  }

  /** The class a row whose criticality cell has the text `t` receives. */
  function CritClass(t: string): Option<string>
  {
    if Contains(t, "warning") then Some("crit-warning")
    else if Contains(t, "caution") then Some("crit-caution")
    else if Contains(t, "advisory") then Some("crit-advisory")
    else if Contains(t, "notification") then Some("crit-notification")
    else None
  }

  /** What one row receives: the classes added to the row and those added to its first cell. */
  datatype RowClasses = RowClasses(row: seq<string>, firstCell: seq<string>)

  function RowClassesFor(rows: seq<TableRow>, cas: bool, j: nat): RowClasses
    requires j < |rows|
  {
    RowClasses([Zebra(j)] + (if cas then OptionList(FirstRule(CritRules(), CritText(rows[j]))) else []),
      OptionList(ColorClass(FirstCellText(rows[j]))))
  }

  /** The body of `$("table").each`: the table's class and, row by row, what `$table.find("tr").each` adds. */
  method ClassifyTable(rows: seq<TableRow>) returns (tableClass: string, classes: seq<RowClasses>)
    ensures tableClass == "color-table" && |classes| == |rows|
    ensures forall j :: 0 <= j < |rows| ==> classes[j] == RowClassesFor(rows, IsCasTable(rows), j)
  {
    tableClass := "color-table";
    var isCasTable := IsCasTable(rows);
    classes := [];
    for j := 0 to |rows|
      invariant |classes| == j
      invariant forall k :: 0 <= k < j ==> classes[k] == RowClassesFor(rows, isCasTable, k)
    {
      ghost var old_classes := classes;
      var rowClasses := ClassifyRow(rows, isCasTable, j);
      classes := classes + [rowClasses];
      forall k | 0 <= k < j + 1
        ensures classes[k] == RowClassesFor(rows, isCasTable, k)
      {
        if k < j {
          assert classes[k] == old_classes[k];
        }
      }
    }
  }

  /** The body of `$table.find("tr").each` for row `j`. */
  method ClassifyRow(rows: seq<TableRow>, isCasTable: bool, j: nat) returns (c: RowClasses)
    requires j < |rows|
    ensures c == RowClassesFor(rows, isCasTable, j)
  {
    var rowClasses := ClassifyRowClasses(rows[j], isCasTable, j);
    var cellClasses := ClassifyColor(FirstCellText(rows[j]));
    c := RowClasses(rowClasses, cellClasses);
  }

  /** The classes added to the row itself: its stripe and, in a CAS table, its criticality. */
  method ClassifyRowClasses(row: TableRow, isCasTable: bool, j: nat) returns (rowClasses: seq<string>)
    ensures rowClasses == [Zebra(j)] + (if isCasTable then OptionList(FirstRule(CritRules(), CritText(row))) else [])
  {
    rowClasses := [Zebra(j)];
    if isCasTable {
      var crit := ClassifyCrit(CritText(row));
      rowClasses := rowClasses + OptionList(crit);
    }
  }

  /** The colour test of a row's first cell. */
  method ClassifyColor(firstCellText: string) returns (cellClasses: seq<string>)
    ensures cellClasses == OptionList(ColorClass(firstCellText))
  {
    cellClasses := [];
    var color := ColorClass(firstCellText);
    if color.Some? {
      cellClasses := cellClasses + [color.value];
    }
  }

  /** The `critText` if-chain of one row. */
  method ClassifyCrit(critText: string) returns (crit: Option<string>)
    ensures crit == FirstRule(CritRules(), critText)
  {
    crit := CritClass(critText);
    CritClassFirstRule(critText);
  }

  /**
    Every row, the header row included, is striped by the parity of its position
    among all rows, whether or not the table is a CAS table.
  */
  lemma RowStripe(rows: seq<TableRow>, cas: bool, j: nat)
    requires j < |rows|
    ensures RowClassesFor(rows, cas, j).row[0] == (if j % 2 == 0 then "zebra-even" else "zebra-odd")
    ensures RowClassesFor(rows, cas, j).row[0] == RowClassesFor(rows, !cas, j).row[0]
  {
  }

  /**
    A row gets a criticality class only in a CAS table, and there exactly when its
    second cell names one of the four levels; the header row is classified like any other.
  */
  lemma CritOnlyInCasTable(rows: seq<TableRow>, j: nat)
    requires j < |rows|
    ensures |RowClassesFor(rows, IsCasTable(rows), j).row| == 2 <==>
      IsCasTable(rows) && exists i :: 0 <= i < |CritRules()| && Contains(CritText(rows[j]), CritRules()[i].keyword)
    ensures |RowClassesFor(rows, IsCasTable(rows), j).row| <= 2
  {
    var cas := IsCasTable(rows);
    var found := FirstRule(CritRules(), CritText(rows[j]));
    assert RowClassesFor(rows, cas, j).row == [Zebra(j)] + (if cas then OptionList(found) else []);
    FirstRuleFound(CritRules(), CritText(rows[j]));
  }

  /** Some rule applies exactly when one of the keywords occurs. */
  lemma FirstRuleFound(rules: seq<Rule>, t: string)
    ensures FirstRule(rules, t).Some? <==> exists i :: 0 <= i < |rules| && Contains(t, rules[i].keyword)
    ensures |OptionList(FirstRule(rules, t))| <= 1
    ensures |OptionList(FirstRule(rules, t))| == 1 <==> FirstRule(rules, t).Some?
  {
  }

  /** A second cell that mentions a warning makes the row a warning, whatever else it mentions. */
  lemma WarningWins(critText: string)
    requires Contains(critText, "warning")
    ensures FirstRule(CritRules(), critText) == Some("crit-warning")
  {
    assert CritRules()[0].keyword == "warning";
  }

  /** The criticality is that of the first keyword, in the order warning, caution, advisory, notification. */
  lemma CritClassFirstRule(t: string)
    ensures CritClass(t) == FirstRule(CritRules(), t)
  {
    var rs := CritRules();
    assert rs[1..][1..][1..][1..] == [];
  }

  /** A first cell is coloured exactly when its trimmed, lowercased paragraph text is one of the eight colour names. */
  lemma ColorClassSpec(t: string)
    ensures ColorClass(t).Some? <==> exists k :: 0 <= k < |CellColors| && t == CellColors[k]
    ensures ColorClass(t).Some? ==> ColorClass(t).value == "color-cell " + t
  {
  }

  // ---------------------------------------------------------------- images

  newtype byte = x: int | 0 <= x < 256

  /** The eight bytes that open every PNG file (section 3.1 of RFC 2083). */
  const PngSignature: seq<byte> := [0x89, 0x50, 0x4E, 0x47, 0x0D, 0x0A, 0x1A, 0x0A]

  function HexDigit(d: int): (c: char)
    requires 0 <= d < 16
  {
    if d < 10 then '0' + d as char else 'A' + (d - 10) as char
  }

  /** `toString("hex").toUpperCase()` */
  function Hex(bs: seq<byte>): (r: string)
    ensures |r| == 2 * |bs|
  {
    if bs == [] then [] else [HexDigit(bs[0] as int / 16), HexDigit(bs[0] as int % 16)] + Hex(bs[1..])
  }

  lemma HexDigitInjective(a: int, b: int)
    requires 0 <= a < 16 && 0 <= b < 16 && HexDigit(a) == HexDigit(b)
    ensures a == b
  {
  }

  lemma {:induction false} HexInjective(a: seq<byte>, b: seq<byte>)
    requires Hex(a) == Hex(b)
    ensures a == b
    decreases |a|
  {
    if a != [] {
      var ha := Hex(a);
      assert ha[0] == Hex(b)[0] && ha[1] == Hex(b)[1];
      HexDigitInjective(a[0] as int / 16, b[0] as int / 16);
      HexDigitInjective(a[0] as int % 16, b[0] as int % 16);
      assert Hex(a[1..]) == ha[2..] == Hex(b[1..]);
      HexInjective(a[1..], b[1..]);
    }
  }

  lemma PngSignatureHex()
    ensures Hex(PngSignature) == "89504E470D0A1A0A"
  {
  }

  /** The test applied to an image: the hex of its first eight bytes, or fewer, against the signature's. */
  predicate IsPng(buffer: seq<byte>)
  {
    var n := if |buffer| < 8 then |buffer| else 8;
    Hex(buffer[..n]) == "89504E470D0A1A0A"
  }

  /** An image counts as PNG exactly when it starts with the PNG signature; a shorter buffer never does. */
  lemma IsPngSpec(buffer: seq<byte>)
    ensures IsPng(buffer) <==> |buffer| >= 8 && buffer[..8] == PngSignature
  {
    PngSignatureHex();
    if |buffer| >= 8 && Hex(buffer[..8]) == Hex(PngSignature) {
      HexInjective(buffer[..8], PngSignature);
    }
  }

  /** How an image ends up on disk. */
  datatype Saved = SavedPng | ConvertedFromEmf | ConversionFailed

  /** The attributes of the `img` element written for an image. */
  datatype ImageAttributes = ImageAttributes(src: string, cls: string)

  /**
    One `convertImage` call for an image named after the clock reading `now`;
    `converts` says whether the external EMF conversion and trimming succeed.
  */
  function ConvertImage(now: nat, buffer: seq<byte>, converts: bool): (Saved, ImageAttributes)
  {
    var filename := "image-" + NatToString(now);
    var saved := if IsPng(buffer) then SavedPng else if converts then ConvertedFromEmf else ConversionFailed;
    (saved, ImageAttributes("assets/images/" + filename + ".png", "zoomable-image"))
  }

  /** Whatever the image and whatever the conversion does, the element points at the PNG name. */
  lemma ConvertImageAttributes(now: nat, buffer: seq<byte>, converts: bool)
    ensures ConvertImage(now, buffer, converts).1 == ConvertImage(now, [], false).1
    ensures ConvertImage(now, buffer, converts).1.cls == "zoomable-image"
    ensures ConvertImage(now, buffer, converts).0 == SavedPng <==> |buffer| >= 8 && buffer[..8] == PngSignature
  {
    IsPngSpec(buffer);
  }
}
