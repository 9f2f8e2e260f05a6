/** The row loop of `process_excel_workbook`: scan the "Working" sheet from
    row 2 until column A is blank, skip rows without a recipient or an email
    type, draft a body for each remaining row, skip the row when drafting
    fails, and otherwise open a compose window; finally report the number of
    rows gone through.

    The spreadsheet arrives already loaded. The language-model call and the
    launch of the mail client are oracles passed in as functions; every row is
    reported in a trace of steps, which stands for the per-row console lines. */
module Workbook {
  import opened Wrappers
  import opened Text
  import Names
  import Mailto

  /** A cell's value as the spreadsheet library hands it over. */
  datatype CellValue = TextValue(text: string) | IntValue(number: int) | BoolValue(flag: bool)

  /** A cell: `None` when it is empty. */
  type Cell = Option<CellValue>

  /** Columns A to D: full name, email type, recipient address, context. */
  datatype Row = Row(name: Cell, emailType: Cell, recipient: Cell, context: Cell)

  /** A sheet: `sheet[i]` is spreadsheet row `i + 1` (row 1 holds the headers). */
  type Sheet = seq<Row>

  const EmptyRow := Row(None, None, None, None)

  /** The subject every message gets. */
  const Subject := "Checking in"

  /** Row `rowNum` of the sheet; every row below the last one is empty. */
  function RowAt(sheet: Sheet, rowNum: int): Row {
    if 1 <= rowNum <= |sheet| then sheet[rowNum - 1] else EmptyRow
  }

  function Digit(d: int): (c: char)
    requires 0 <= d < 10
    ensures '0' <= c <= '9'
  {
    ('0' as int + d) as char
  }

  predicate IsDigits(s: string) {
    forall i :: 0 <= i < |s| ==> '0' <= s[i] <= '9'
  }

  /** The decimal digits of `n`, most significant first, with no leading
      zero. */
  function Digits(n: nat): (r: string)
    ensures r != [] && IsDigits(r)
    ensures r[0] == '0' ==> n == 0
  {
    if n < 10 then [Digit(n)] else Digits(n / 10) + [Digit(n % 10)]
  }

  /** `str(n)` for an integer: a `-` for a negative number, then its digits. */
  function Decimal(n: int): (r: string)
    ensures r != [] && NoSpace(r)
    ensures n < 0 <==> r[0] == '-'
    ensures n < 0 ==> IsDigits(r[1..])
    ensures n >= 0 ==> IsDigits(r)
  {
    if n < 0 then "-" + Digits(-n) else Digits(n)
  }

  /** The number a string of decimal digits denotes, read from the left: an
      independent reader for `Digits`. */
  function NumeralValue(s: string): nat
    requires IsDigits(s)
  {
    if s == [] then 0 else NumeralValue(s[..|s| - 1]) * 10 + (s[|s| - 1] as int - '0' as int)
  }

  /** Reading the digits back gives the number. */
  lemma {:induction false} DigitsValue(n: nat)
    ensures NumeralValue(Digits(n)) == n
  {
    if n >= 10 {
      var r := Digits(n);
      DigitsValue(n / 10);
      assert r == Digits(n / 10) + [Digit(n % 10)];
      assert r[..|r| - 1] == Digits(n / 10);
    }
  }

  /** `str(n)` reads back as `n`: its sign, then digits worth `|n|`, with no
      leading zero. */
  lemma {:induction false} DecimalValue(n: int)
    ensures var r := Decimal(n);
      (n >= 0 ==> NumeralValue(r) == n && (r[0] == '0' ==> r == "0")) &&
      (n < 0 ==> NumeralValue(r[1..]) == -n && r[1] != '0')
  {
    if n < 0 {
      DigitsValue(-n);
      assert Decimal(n)[1..] == Digits(-n);
    } else {
      DigitsValue(n);
    }
  }

  /** `str(v)`. */
  function ToStr(v: CellValue): string {
    match v
    case TextValue(s) => s
    case IntValue(n) => Decimal(n)
    case BoolValue(b) => if b then "True" else "False"
  }

  /** Python truthiness: the empty string, zero and `False` are false. */
  predicate IsTruthy(v: CellValue) {
    match v
    case TextValue(s) => s != []
    case IntValue(n) => n != 0
    case BoolValue(b) => b
  }

  /** `str(cell).strip()` for column A, or `""` when the cell is empty. */
  function NameText(c: Cell): (r: string)
    ensures Trimmed(r)
  {
    if c.Some? then Trim(ToStr(c.value)) else ""
  }

  /** Column A ends the scan when it is empty or `str(...)` of it is blank,
      that is, when `NameText` of it is `""` (`SentinelIsBlankName`). */
  predicate IsSentinel(name: Cell) {
    name.None? || Blank(ToStr(name.value))
  }

  /** `str(value or "").strip()` for columns B, C and D: an empty cell and a
      false value (an empty string, zero, `False`) both read as `""`. */
  function ColumnText(c: Cell): (r: string)
    ensures Trimmed(r)
    ensures r == [] <==> c.None? || !IsTruthy(c.value) || AllSpace(ToStr(c.value))
    ensures c.Some? && IsTruthy(c.value) ==> r == Trim(ToStr(c.value))
  {
    if c.Some? && IsTruthy(c.value) then
      TrimEmptyIff(ToStr(c.value));
      Trim(ToStr(c.value))
    else ""
  }

  /** The arguments `generate_email_body` gets besides the client. */
  datatype DraftRequest = DraftRequest(firstName: string, emailType: string, context: string)

  /** The language model: the raw reply to the prompt built from a request at a
      given row, or `None` when the call raises. Indexing by row lets every call
      answer differently. */
  type Completer = (int, DraftRequest) -> Option<string>

  /** `open_outlook_email(to, subject, body)` at a given row: whether it
      reported success. The link it hands to the operating system is
      `Mailto.Link` of the message; starting the mail client is the oracle's. */
  type Launcher = (int, Mailto.Message) -> bool

  /** `generate_email_body`: the reply with its surrounding whitespace removed,
      or `None` when the call failed. */
  function GenerateEmailBody(complete: Completer, rowNum: int, request: DraftRequest): (r: Option<string>)
    ensures r.None? <==> complete(rowNum, request).None?
    ensures r.Some? ==> Trimmed(r.value) && Words(r.value) == Words(complete(rowNum, request).value)
  {
    match complete(rowNum, request)
    case None => None
    case Some(reply) =>
      WordsOfTrim(reply);
      Some(Trim(reply))
  }

  /** What happened to one row that is not the sentinel. */
  datatype Outcome =
    | MissingData
    | DraftFailed(request: DraftRequest)
    | Opened(request: DraftRequest, message: Mailto.Message, launched: bool)

  datatype Step = Step(rowNum: int, outcome: Outcome)

  /** The request drafted from a row: the first name of column A, and the
      trimmed email type and context. */
  function RequestOf(row: Row): DraftRequest {
    DraftRequest(Names.SplitName(NameText(row.name)).0, ColumnText(row.emailType), ColumnText(row.context))
  }

  /** The rest of a complete row's handling: draft a body, skip the row when
      that fails, and otherwise open a message with the fixed subject. */
  function Draft(complete: Completer, launch: Launcher, rowNum: int, recipient: string, request: DraftRequest): Outcome {
    match GenerateEmailBody(complete, rowNum, request)
    case None => DraftFailed(request)
    case Some(body) =>
      var message := Mailto.Message(recipient, Subject, body);
      Opened(request, message, launch(rowNum, message))
  }

  /** The handling of one row that is not the sentinel, as the loop body
      does it. */
  function Visit(complete: Completer, launch: Launcher, rowNum: int, row: Row): Outcome {
    var emailType := ColumnText(row.emailType);
    var recipient := ColumnText(row.recipient);
    if recipient == [] || emailType == [] then MissingData
    else Draft(complete, launch, rowNum, recipient, RequestOf(row))
  }

  /** The handling of a row, given its number and contents. */
  type Visitor = (int, Row) -> Outcome

  function RowVisitor(complete: Completer, launch: Launcher): Visitor {
    (rowNum, row) => Visit(complete, launch, rowNum, row)
  }

  /** Whether a row ends the scan. */
  type EndTest = Row -> bool

  /** The end test of `process_excel_workbook`: column A empty or blank. */
  function SentinelTest(): EndTest {
    (row: Row) => IsSentinel(row.name)
  }

  /** The steps of a scan from row `rowNum` on: one per row up to, and not
      including, the first row that `isEnd` accepts. The rows below the sheet
      are empty, so the scan ends as soon as `isEnd` accepts an empty row. */
  function ScanFrom(sheet: Sheet, isEnd: EndTest, visit: Visitor, rowNum: int): seq<Step>
    requires isEnd(EmptyRow)
    decreases if rowNum <= |sheet| then |sheet| + 1 - rowNum else 0
  {
    if isEnd(RowAt(sheet, rowNum)) then []
    else [Step(rowNum, visit(rowNum, RowAt(sheet, rowNum)))] + ScanFrom(sheet, isEnd, visit, rowNum + 1)
  }

  /** The scan of `process_excel_workbook` with any handling of its rows:
      from row 2, below the headers, up to the first sentinel. */
  function RowScan(sheet: Sheet, visit: Visitor): seq<Step> {
    ScanFrom(sheet, SentinelTest(), visit, 2)
  }

  /** The whole scan of `process_excel_workbook`. */
  function Scan(sheet: Sheet, complete: Completer, launch: Launcher): seq<Step> {
    RowScan(sheet, RowVisitor(complete, launch))
  }

  lemma {:induction false} ScanFromUnfold(sheet: Sheet, isEnd: EndTest, visit: Visitor, rowNum: int)
    requires isEnd(EmptyRow) && !isEnd(RowAt(sheet, rowNum))
    ensures ScanFrom(sheet, isEnd, visit, rowNum) ==
      [Step(rowNum, visit(rowNum, RowAt(sheet, rowNum)))] + ScanFrom(sheet, isEnd, visit, rowNum + 1)
  {
  }

  /** One step of the loop: a row's outcome appended to the steps so far
      leaves the rest of the scan to the following rows. */
  lemma {:induction false} AdvanceScan(sheet: Sheet, isEnd: EndTest, visit: Visitor, rowNum: int, steps: seq<Step>)
    requires isEnd(EmptyRow) && !isEnd(RowAt(sheet, rowNum))
    ensures (steps + [Step(rowNum, visit(rowNum, RowAt(sheet, rowNum)))]) + ScanFrom(sheet, isEnd, visit, rowNum + 1)
      == steps + ScanFrom(sheet, isEnd, visit, rowNum)
  {
    var step, rest := Step(rowNum, visit(rowNum, RowAt(sheet, rowNum))), ScanFrom(sheet, isEnd, visit, rowNum + 1);
    ScanFromUnfold(sheet, isEnd, visit, rowNum);
    assert (steps + [step]) + rest == steps + ([step] + rest);
  }

  /** The loop of `process_excel_workbook`. Returns the trace of the rows it
      went through and the count it reports, `row_num - 2`. */
  method ProcessWorkbook(sheet: Sheet, complete: Completer, launch: Launcher)
    returns (steps: seq<Step>, processed: int)
    ensures steps == Scan(sheet, complete, launch)
    ensures processed == |steps|
  {
    ghost var isEnd, visit := SentinelTest(), RowVisitor(complete, launch);
    assert isEnd(EmptyRow);
    steps := [];
    var rowNum := 2;
    while true
      invariant 2 <= rowNum <= |sheet| + 2
      invariant |steps| == rowNum - 2
      invariant steps + ScanFrom(sheet, isEnd, visit, rowNum) == Scan(sheet, complete, launch)
      decreases |sheet| + 2 - rowNum
    {
      var row := RowAt(sheet, rowNum);
      SentinelIsBlankName(row.name);
      if row.name.None? || Trim(ToStr(row.name.value)) == [] {
        break;
      }
      AdvanceScan(sheet, isEnd, visit, rowNum, steps);
      var fullName := Trim(ToStr(row.name.value));
      var emailType := ColumnText(row.emailType);
      var recipient := ColumnText(row.recipient);
      var context := ColumnText(row.context);
      assert fullName == NameText(row.name);
      var outcome;
      if recipient == [] || emailType == [] {
        outcome := MissingData;
      } else {
        var (firstName, _) := Names.SplitName(fullName);
        var request := DraftRequest(firstName, emailType, context);
        var emailBody := GenerateEmailBody(complete, rowNum, request);
        if emailBody.None? {
          outcome := DraftFailed(request);
        } else {
          var message := Mailto.Message(recipient, Subject, emailBody.value);
          var success := launch(rowNum, message);
          outcome := Opened(request, message, success);
        }
      }
      assert outcome == Visit(complete, launch, rowNum, row);
      steps := steps + [Step(rowNum, outcome)];
      rowNum := rowNum + 1;
    }
    processed := rowNum - 2;
  }

  /** The sentinel test is the loop's own: `str(...).strip()` of column A is
      empty. */
  lemma {:induction false} SentinelIsBlankName(name: Cell)
    ensures IsSentinel(name) <==> NameText(name) == []
  {
    if name.Some? {
      TrimEmptyIff(ToStr(name.value));
      BlankIff(ToStr(name.value));
    }
  }

  /** A row that is not the sentinel has a non-empty first name. */
  lemma {:induction false} FirstNameOfVisitedRow(name: Cell)
    requires !IsSentinel(name)
    ensures Names.SplitName(NameText(name)).0 != []
  {
    var fullName := NameText(name);
    SentinelIsBlankName(name);
    Names.SplitNameBlank(fullName);
    assert !AllSpace(fullName) by {
      assert fullName != [] && !IsSpace(fullName[0]);
    }
  }

  /** The request `Visit` drafts from, for a row that is not the sentinel. */
  lemma {:induction false} VisitRequest(complete: Completer, launch: Launcher, rowNum: int, row: Row)
    requires !IsSentinel(row.name)
    ensures var outcome := Visit(complete, launch, rowNum, row);
      var recipient, emailType := ColumnText(row.recipient), ColumnText(row.emailType);
      (outcome.MissingData? <==> recipient == [] || emailType == []) &&
      (!outcome.MissingData? ==>
        outcome.request == DraftRequest(Names.SplitName(NameText(row.name)).0, emailType, ColumnText(row.context)) &&
        outcome.request.firstName != [])
  {
    FirstNameOfVisitedRow(row.name);
    var recipient, emailType := ColumnText(row.recipient), ColumnText(row.emailType);
    if recipient != [] && emailType != [] {
      DraftKeepsRequest(complete, launch, rowNum, recipient, RequestOf(row));
    }
  }

  lemma {:induction false} DraftKeepsRequest(complete: Completer, launch: Launcher, rowNum: int, recipient: string, request: DraftRequest)
    ensures var outcome := Draft(complete, launch, rowNum, recipient, request);
      !outcome.MissingData? && outcome.request == request
  {
  }

  /** What `Draft` does, by the drafter's answer. */
  lemma {:induction false} DraftOutcome(complete: Completer, launch: Launcher, rowNum: int, recipient: string, request: DraftRequest)
    ensures var outcome := Draft(complete, launch, rowNum, recipient, request);
      (outcome.DraftFailed? <==> complete(rowNum, request).None?) &&
      (outcome.Opened? ==>
        complete(rowNum, request).Some? &&
        outcome.message == Mailto.Message(recipient, Subject, Trim(complete(rowNum, request).value)) &&
        outcome.launched == launch(rowNum, outcome.message))
  {
  }

  /** What `Visit` does with a complete row, by the drafter's answer. */
  lemma {:induction false} VisitDraft(complete: Completer, launch: Launcher, rowNum: int, row: Row)
    ensures var outcome := Visit(complete, launch, rowNum, row);
      (outcome.DraftFailed? <==> !outcome.MissingData? && complete(rowNum, outcome.request).None?) &&
      (outcome.Opened? ==>
        complete(rowNum, outcome.request).Some? &&
        outcome.message == Mailto.Message(ColumnText(row.recipient), Subject, Trim(complete(rowNum, outcome.request).value)) &&
        outcome.launched == launch(rowNum, outcome.message))
  {
    var recipient, emailType := ColumnText(row.recipient), ColumnText(row.emailType);
    if recipient != [] && emailType != [] {
      var request := RequestOf(row);
      assert Visit(complete, launch, rowNum, row) == Draft(complete, launch, rowNum, recipient, request);
      DraftKeepsRequest(complete, launch, rowNum, recipient, request);
      DraftOutcome(complete, launch, rowNum, recipient, request);
    }
  }

  // ---------------------------------------------------------------------
  // Lemmas about the scan
  // ---------------------------------------------------------------------

  /** Step `k` of a scan from row `n` is row `n + k`; neither it nor any row
      before it ends the scan. */
  lemma {:induction false} ScanFromAt(sheet: Sheet, isEnd: EndTest, visit: Visitor, n: int, k: nat)
    requires isEnd(EmptyRow)
    requires k < |ScanFrom(sheet, isEnd, visit, n)|
    ensures forall r :: n <= r <= n + k ==> !isEnd(RowAt(sheet, r))
    ensures ScanFrom(sheet, isEnd, visit, n)[k] == Step(n + k, visit(n + k, RowAt(sheet, n + k)))
    decreases k
  {
    ScanFromUnfold(sheet, isEnd, visit, n);
    if k > 0 {
      ScanFromAt(sheet, isEnd, visit, n + 1, k - 1);
    }
  }

  /** A scan ends on a row that `isEnd` accepts. */
  lemma {:induction false} ScanFromEnd(sheet: Sheet, isEnd: EndTest, visit: Visitor, n: int)
    requires isEnd(EmptyRow)
    ensures isEnd(RowAt(sheet, n + |ScanFrom(sheet, isEnd, visit, n)|))
    decreases if n <= |sheet| then |sheet| + 1 - n else 0
  {
    if !isEnd(RowAt(sheet, n)) {
      ScanFromUnfold(sheet, isEnd, visit, n);
      ScanFromEnd(sheet, isEnd, visit, n + 1);
    }
  }

  lemma {:induction false} ScanFromIgnoresLaterRows(sheet: Sheet, other: Sheet, isEnd: EndTest, visit: Visitor, n: int)
    requires isEnd(EmptyRow)
    requires forall r :: n <= r <= n + |ScanFrom(sheet, isEnd, visit, n)| ==> RowAt(sheet, r) == RowAt(other, r)
    ensures ScanFrom(sheet, isEnd, visit, n) == ScanFrom(other, isEnd, visit, n)
    decreases if n <= |sheet| then |sheet| + 1 - n else 0
  {
    assert RowAt(sheet, n) == RowAt(other, n);
    if !isEnd(RowAt(sheet, n)) {
      ScanFromUnfold(sheet, isEnd, visit, n);
      ScanFromUnfold(other, isEnd, visit, n);
      ScanFromIgnoresLaterRows(sheet, other, isEnd, visit, n + 1);
    }
  }

  /** The scan goes through rows 2, 3, ... in order, one step per row, and
      stops at the first row whose column A is empty or blank: every row it
      reports is not a sentinel, and the row after the last one it reports is.
      So the reported count, `row_num - 2`, is the number of rows before the
      sentinel, skipped and failed rows included. This holds however the rows
      are handled. */
  lemma {:induction false} ScanStopsAtFirstSentinel(sheet: Sheet, visit: Visitor)
    ensures var steps := RowScan(sheet, visit);
      (forall k :: 0 <= k < |steps| ==> steps[k].rowNum == 2 + k) &&
      (forall r :: 2 <= r < 2 + |steps| ==> !IsSentinel(RowAt(sheet, r).name)) &&
      IsSentinel(RowAt(sheet, 2 + |steps|).name)
  {
    var isEnd := SentinelTest();
    assert isEnd(EmptyRow);
    var steps := RowScan(sheet, visit);
    forall k | 0 <= k < |steps|
      ensures steps[k].rowNum == 2 + k
    {
      ScanFromAt(sheet, isEnd, visit, 2, k);
    }
    forall r | 2 <= r < 2 + |steps|
      ensures !IsSentinel(RowAt(sheet, r).name)
    {
      ScanFromAt(sheet, isEnd, visit, 2, |steps| - 1);
      assert !isEnd(RowAt(sheet, r));
    }
    ScanFromEnd(sheet, isEnd, visit, 2);
    assert isEnd(RowAt(sheet, 2 + |steps|));
  }

  /** Nothing below the sentinel is read: two sheets that agree from row 2 down
      to the first sentinel of one of them give the same scan, however the rows
      below differ. */
  lemma {:induction false} ScanIgnoresRowsAfterSentinel(sheet: Sheet, other: Sheet, visit: Visitor)
    requires forall r :: 2 <= r <= 2 + |RowScan(sheet, visit)| ==> RowAt(sheet, r) == RowAt(other, r)
    ensures RowScan(sheet, visit) == RowScan(other, visit)
  {
    var isEnd := SentinelTest();
    assert isEnd(EmptyRow);
    ScanFromIgnoresLaterRows(sheet, other, isEnd, visit, 2);
  }

  /** The outcome of step `k` is that of row `2 + k`. */
  lemma {:induction false} ScanStepIsVisit(sheet: Sheet, complete: Completer, launch: Launcher, k: nat)
    requires k < |Scan(sheet, complete, launch)|
    ensures !IsSentinel(RowAt(sheet, 2 + k).name)
    ensures Scan(sheet, complete, launch)[k].outcome == Visit(complete, launch, 2 + k, RowAt(sheet, 2 + k))
  {
    var isEnd := SentinelTest();
    assert isEnd(EmptyRow);
    ScanFromAt(sheet, isEnd, RowVisitor(complete, launch), 2, k);
  }

  /** A row is skipped without drafting exactly when its recipient or its
      email type is blank after trimming; every other row goes to the drafter
      with the first name of column A and the trimmed type and context, and
      that first name is never empty. */
  lemma {:induction false} ScanSkipsIncompleteRows(sheet: Sheet, complete: Completer, launch: Launcher, k: nat)
    requires k < |Scan(sheet, complete, launch)|
    ensures var row := RowAt(sheet, 2 + k);
      var outcome := Scan(sheet, complete, launch)[k].outcome;
      var recipient, emailType := ColumnText(row.recipient), ColumnText(row.emailType);
      (outcome.MissingData? <==> recipient == [] || emailType == []) &&
      (!outcome.MissingData? ==>
        outcome.request == DraftRequest(Names.SplitName(NameText(row.name)).0, emailType, ColumnText(row.context)) &&
        outcome.request.firstName != [])
  {
    ScanStepIsVisit(sheet, complete, launch, k);
    VisitRequest(complete, launch, 2 + k, RowAt(sheet, 2 + k));
  }

  /** A complete row is reported as failed exactly when the drafter returned
      `None`; otherwise the mail client is asked to open a message to the
      row's recipient, with the subject "Checking in" and the trimmed reply as
      body, and the launcher's verdict is recorded. */
  lemma {:induction false} ScanOpensDraftedRows(sheet: Sheet, complete: Completer, launch: Launcher, k: nat)
    requires k < |Scan(sheet, complete, launch)|
    ensures var row := RowAt(sheet, 2 + k);
      var outcome := Scan(sheet, complete, launch)[k].outcome;
      (outcome.DraftFailed? <==> !outcome.MissingData? && complete(2 + k, outcome.request).None?) &&
      (outcome.Opened? ==>
        complete(2 + k, outcome.request).Some? &&
        outcome.message == Mailto.Message(ColumnText(row.recipient), Subject, Trim(complete(2 + k, outcome.request).value)) &&
        outcome.launched == launch(2 + k, outcome.message))
  {
    ScanStepIsVisit(sheet, complete, launch, k);
    VisitDraft(complete, launch, 2 + k, RowAt(sheet, 2 + k));
  }

  /** The link handed to the operating system for an opened row reads back,
      through `Mailto.ParseLink`, as its message, body included, whenever the
      recipient holds no `?`. */
  lemma {:induction false} ScanLinkCarriesMessage(sheet: Sheet, complete: Completer, launch: Launcher, k: nat)
    requires k < |Scan(sheet, complete, launch)|
    requires Scan(sheet, complete, launch)[k].outcome.Opened?
    requires '?' !in ColumnText(RowAt(sheet, 2 + k).recipient)
    ensures var m := Scan(sheet, complete, launch)[k].outcome.message;
      Mailto.ParseLink(Mailto.Link(m.recipient, m.subject, m.body)) == Some(m)
  {
    ScanOpensDraftedRows(sheet, complete, launch, k);
    var m := Scan(sheet, complete, launch)[k].outcome.message;
    Mailto.ParseLinkOfLink(m.recipient, m.subject, m.body);
  }
}
