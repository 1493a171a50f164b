/**
 * The reports tab of gui.py: column backfill, date and status filters, status counts and
 * the status badge of each displayed row.
 */
module Report {
  import opened Common
  import opened Ledger

  const AllStatuses: string := "ALL"
  const PresentName: string := "PRESENT"
  const LateName: string := "LATE"
  const LeftEarlyName: string := "LEFT_EARLY"
  const AbsentName: string := "ABSENT"
  /** The statistics labels, in display order. */
  const CountedStatuses: seq<string> := [PresentName, LateName, LeftEarlyName, AbsentName]

  const Green: string := "#28a745"
  const Amber: string := "#ffc107"
  const Red: string := "#dc3545"
  const Grey: string := "#6c757d"

  /**
   * The required-columns pass: a table without a status column reads as all ABSENT; a
   * missing total_time_present column is blank, as an empty cell already is.
   */
  function Backfill(s: Sheet): (rows: seq<Record>)
    ensures |rows| == |s.rows|
    ensures forall i | 0 <= i < |rows| ::
              && rows[i].(status := s.rows[i].status) == s.rows[i]
              && rows[i].status == (if StatusColumn in s.columns then s.rows[i].status else Some(AbsentName))
  {
    if StatusColumn in s.columns then s.rows
    else seq(|s.rows|, i requires 0 <= i < |s.rows| => s.rows[i].(status := Some(AbsentName)))
  }

  /** A row passes the date filter: no date selected, or a check-in on the selected day. */
  predicate OnDate(r: Record, selected: string, dateLabel: int -> string) {
    selected == "" || (r.checkIn.Some? && dateLabel(r.checkIn.value) == selected)
  }

  /** A row passes the status filter: ALL selected, or exactly the selected status (an empty cell matches nothing). */
  predicate WithStatus(r: Record, selected: string) {
    selected == AllStatuses || r.status == Some(selected)
  }

  function OnDateMask(selected: string, dateLabel: int -> string): Record -> bool {
    r => OnDate(r, selected, dateLabel)
  }

  function WithStatusMask(selected: string): Record -> bool {
    r => WithStatus(r, selected)
  }

  /**
   * `df[df['check_in_time'].dt.strftime('%Y-%m-%d') == selected_date]` when a date is
   * selected: the rows on that date, in order and with repeats. `dateLabel` is the strftime
   * of a check-in time; an empty check-in has no label and never matches.
   */
  function FilterByDate(rows: seq<Record>, selected: string, dateLabel: int -> string): (out: seq<Record>)
    ensures Subsequence(out, rows)
    ensures forall i | 0 <= i < |out| :: OnDate(out[i], selected, dateLabel)
    ensures forall r :: multiset(out)[r] == if OnDate(r, selected, dateLabel) then multiset(rows)[r] else 0
    ensures selected == "" ==> out == rows
  {
    FilterCounts(rows, OnDateMask(selected, dateLabel));
    FilterAll(rows, OnDateMask(selected, dateLabel));
    Filter(rows, OnDateMask(selected, dateLabel))
  }

  /** `df[df['status'] == selected_status]` unless ALL is selected: the rows with that status, in order and with repeats. */
  function FilterByStatus(rows: seq<Record>, selected: string): (out: seq<Record>)
    ensures Subsequence(out, rows)
    ensures forall i | 0 <= i < |out| :: WithStatus(out[i], selected)
    ensures forall r :: multiset(out)[r] == if WithStatus(r, selected) then multiset(rows)[r] else 0
    ensures selected == AllStatuses ==> out == rows
  {
    FilterCounts(rows, WithStatusMask(selected));
    FilterAll(rows, WithStatusMask(selected));
    Filter(rows, WithStatusMask(selected))
  }

  /** The status a row is counted under: an empty cell counts as ABSENT. */
  function CountedAs(r: Record): string {
    if r.status.Some? then r.status.value else AbsentName
  }

  /** value_counts of the filled status column, for one status. */
  function CountOfStatus(rows: seq<Record>, status: string): (n: nat)
    ensures n <= |rows|
  {
    if rows == [] then 0
    else CountOfStatus(rows[..|rows| - 1], status) + (if CountedAs(rows[|rows| - 1]) == status then 1 else 0)
  }

  /** The four statistics, in CountedStatuses order. */
  function StatusCounts(rows: seq<Record>): (counts: seq<nat>)
    ensures |counts| == |CountedStatuses|
    ensures forall k | 0 <= k < |CountedStatuses| :: counts[k] == CountOfStatus(rows, CountedStatuses[k])
  {
    seq(|CountedStatuses|, k requires 0 <= k < |CountedStatuses| => CountOfStatus(rows, CountedStatuses[k]))
  }

  /** Every row is counted under at most one of the four labels, so the labels never add up to more than the rows shown. */
  lemma {:induction false} CountsNeverExceedRows(rows: seq<Record>)
    ensures CountOfStatus(rows, PresentName) + CountOfStatus(rows, LateName)
            + CountOfStatus(rows, LeftEarlyName) + CountOfStatus(rows, AbsentName) <= |rows|
  {
    if rows != [] {
      CountsNeverExceedRows(rows[..|rows| - 1]);
    }
  }

  /** When every row carries one of the four statuses or none, the four labels add up to the rows shown. */
  lemma {:induction false} CountsCoverKnownStatuses(rows: seq<Record>)
    requires forall i | 0 <= i < |rows| :: CountedAs(rows[i]) in CountedStatuses
    ensures CountOfStatus(rows, PresentName) + CountOfStatus(rows, LateName)
            + CountOfStatus(rows, LeftEarlyName) + CountOfStatus(rows, AbsentName) == |rows|
  {
    if rows != [] {
      CountsCoverKnownStatuses(rows[..|rows| - 1]);
    }
  }

  /** After filtering on one status, every shown row is counted under that status and none under another. */
  lemma {:induction false} FilteredRowsCountUnderSelection(rows: seq<Record>, selected: string, other: string)
    requires forall r | r in rows :: r.status == Some(selected)
    requires other != selected
    ensures CountOfStatus(rows, selected) == |rows|
    ensures CountOfStatus(rows, other) == 0
  {
    if rows != [] {
      FilteredRowsCountUnderSelection(rows[..|rows| - 1], selected, other);
    }
  }

  datatype ReportView = ReportView(rows: seq<Record>, counts: seq<nat>)

  /**
   * `refresh_report`: backfill, filter by date, filter by status, count. A missing file makes
   * read_excel raise and the report is not refreshed.
   */
  function RefreshReport(onDisk: bool, s: Sheet, selectedDate: string, selectedStatus: string,
                         dateLabel: int -> string): (view: Option<ReportView>)
    ensures view.None? <==> !onDisk
    ensures view.Some? ==> Subsequence(view.value.rows, Backfill(s))
    ensures view.Some? ==> forall i | 0 <= i < |view.value.rows| ::
              OnDate(view.value.rows[i], selectedDate, dateLabel) && WithStatus(view.value.rows[i], selectedStatus)
    ensures view.Some? ==> forall r ::
              multiset(view.value.rows)[r]
              == if OnDate(r, selectedDate, dateLabel) && WithStatus(r, selectedStatus) then multiset(Backfill(s))[r] else 0
    ensures view.Some? ==> view.value.counts == StatusCounts(view.value.rows)
    ensures view.Some? && selectedDate == "" && selectedStatus == AllStatuses ==> view.value.rows == Backfill(s)
  {
    if !onDisk then None
    else
      var all := Backfill(s);
      var rows := FilterByStatus(FilterByDate(all, selectedDate, dateLabel), selectedStatus);
      FilterTwice(all, OnDateMask(selectedDate, dateLabel), WithStatusMask(selectedStatus),
                  r => OnDate(r, selectedDate, dateLabel) && WithStatus(r, selectedStatus));
      Some(ReportView(rows, StatusCounts(rows)))
  }

  /** A report filtered on one of the four statuses counts all its rows under that status. */
  lemma FilteredReportCounts(s: Sheet, selectedDate: string, selectedStatus: string, dateLabel: int -> string)
    requires selectedStatus in CountedStatuses
    ensures var view := RefreshReport(true, s, selectedDate, selectedStatus, dateLabel).value;
            forall k | 0 <= k < |CountedStatuses| ::
              view.counts[k] == if CountedStatuses[k] == selectedStatus then |view.rows| else 0
  {
    var view := RefreshReport(true, s, selectedDate, selectedStatus, dateLabel).value;
    forall k | 0 <= k < |CountedStatuses|
      ensures view.counts[k] == if CountedStatuses[k] == selectedStatus then |view.rows| else 0
    {
      var other := if CountedStatuses[k] == selectedStatus then (if selectedStatus == AbsentName then PresentName else AbsentName)
                   else CountedStatuses[k];
      FilteredRowsCountUnderSelection(view.rows, selectedStatus, other);
    }
  }

  /** `str(status).lower() == 'nan'` for the characters that lower-case to those letters. */
  predicate IsNanText(s: string) {
    && |s| == 3
    && (s[0] == 'n' || s[0] == 'N')
    && (s[1] == 'a' || s[1] == 'A')
    && (s[2] == 'n' || s[2] == 'N')
  }

  function BadgeColour(status: string): (colour: string) {
    if status == PresentName then Green
    else if status == LateName then Amber
    else if status == LeftEarlyName then Red
    else Grey
  }

  /** `get_status_badge`: an empty, null or "nan" status shows as PRESENT; the text is the status padded by two spaces. */
  function GetStatusBadge(status: Option<string>): (badge: (string, string))
    ensures status.None? || status.value == "" || IsNanText(status.value) ==> badge == ("  PRESENT  ", Green)
    ensures status.Some? && status.value != "" && !IsNanText(status.value) ==>
              badge.0 == "  " + status.value + "  " && badge.1 == BadgeColour(status.value)
    ensures badge.1 in {Green, Amber, Red, Grey}
  {
    var shown := if status.None? || status.value == "" || IsNanText(status.value) then PresentName else status.value;
    assert "  " + PresentName + "  " == "  PRESENT  ";
    ("  " + shown + "  ", BadgeColour(shown))
  }

  /** Only the three named statuses are coloured; every other text, ABSENT included, is grey. */
  lemma UnknownStatusIsGrey(status: string)
    requires status != "" && !IsNanText(status)
    requires status !in {PresentName, LateName, LeftEarlyName}
    ensures GetStatusBadge(Some(status)).1 == Grey
  {
  }

  /** A row with an empty status cell is shown with a PRESENT badge but counted as ABSENT. */
  lemma EmptyStatusShownPresentCountedAbsent(r: Record)
    requires r.status.None?
    ensures GetStatusBadge(r.status).0 == "  PRESENT  "
    ensures CountOfStatus([r], AbsentName) == 1 && CountOfStatus([r], PresentName) == 0
  {
    assert [r][..0] == [];
  }
}
