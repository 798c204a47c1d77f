/** The fixed tables of `src/lib/constants.ts`: course statuses, day order and labels, colours. */
module Constants {

  import opened Wrappers

  /** The four keys of `COURSE_STATUS`. */
  datatype CourseStatus = Completed | InProgress | Planned | NotStarted

  /** The key text stored for a status. */
  function StatusKey(st: CourseStatus): string {
    match st
    case Completed => "COMPLETED"
    case InProgress => "IN_PROGRESS"
    case Planned => "PLANNED"
    case NotStarted => "NOT_STARTED"
  }

  /** Display label of a status. */
  function StatusLabel(st: CourseStatus): string {
    match st
    case Completed => "Completed"
    case InProgress => "In Progress"
    case Planned => "Planned"
    case NotStarted => "Not Started"
  }

  /** The status whose key is `s`, if any: the inverse of `StatusKey`. */
  function StatusFromKey(s: string): (r: Option<CourseStatus>)
    ensures r.Some? ==> StatusKey(r.value) == s
    ensures r.None? ==> forall st: CourseStatus :: StatusKey(st) != s
  {
    if s == "COMPLETED" then Some(Completed)
    else if s == "IN_PROGRESS" then Some(InProgress)
    else if s == "PLANNED" then Some(Planned)
    else if s == "NOT_STARTED" then Some(NotStarted)
    else None
  }

  /** `STATUS_OPTIONS`, in the order the status sort uses. */
  const StatusOptions: seq<string> := ["COMPLETED", "IN_PROGRESS", "PLANNED", "NOT_STARTED"]

  /** `STATUS_OPTIONS` lists every status key exactly once and nothing else. */
  lemma StatusOptionsAreTheKeys()
    ensures |StatusOptions| == 4
    ensures forall i, j :: 0 <= i < j < |StatusOptions| ==> StatusOptions[i] != StatusOptions[j]
    ensures forall st: CourseStatus :: StatusKey(st) in StatusOptions
    ensures forall s :: s in StatusOptions ==> StatusFromKey(s).Some?
  {
  }

  /** `StatusFromKey` undoes `StatusKey`. */
  lemma StatusKeyRoundTrip(st: CourseStatus)
    ensures StatusFromKey(StatusKey(st)) == Some(st)
  {
  }

  /** The canonical unaccented day keys, indexed by JavaScript weekday number (0 = Sunday). */
  const CanonicalDays: seq<string> := ["domingo", "lunes", "martes", "miercoles", "jueves", "viernes", "sabado"]

  /** `miércoles` and `sábado` with their accents. */
  const Miercoles: string := "mi\U{E9}rcoles"
  const Sabado: string := "s\U{E1}bado"

  /** `DAY_ORDER`: the sort position of each day key, accented spellings included. */
  const DayOrder: map<string, int> := map[
    "lunes" := 1, "martes" := 2, "miercoles" := 3, Miercoles := 3, "jueves" := 4,
    "viernes" := 5, "sabado" := 6, Sabado := 6, "domingo" := 0]

  /** `DAY_LABELS`: the English display name of each day key. */
  const DayLabels: map<string, string> := map[
    "domingo" := "Sunday", "lunes" := "Monday", "martes" := "Tuesday",
    "miercoles" := "Wednesday", Miercoles := "Wednesday", "jueves" := "Thursday",
    "viernes" := "Friday", "sabado" := "Saturday", Sabado := "Saturday"]

  /** The gradient classes cycled through by course index. */
  const SemesterColors: seq<string> := [
    "from-blue-500 to-cyan-500", "from-violet-500 to-purple-500", "from-pink-500 to-rose-500",
    "from-amber-500 to-orange-500", "from-emerald-500 to-teal-500", "from-indigo-500 to-blue-500",
    "from-fuchsia-500 to-pink-500", "from-lime-500 to-green-500", "from-sky-500 to-indigo-500",
    "from-red-500 to-orange-500"]

  /** Accented and unaccented spellings of a day share their order and their label. */
  lemma AccentedDaysAgree()
    ensures Miercoles != "miercoles" && Sabado != "sabado"
    ensures DayOrder[Miercoles] == DayOrder["miercoles"] == 3
    ensures DayOrder[Sabado] == DayOrder["sabado"] == 6
    ensures DayLabels[Miercoles] == DayLabels["miercoles"]
    ensures DayLabels[Sabado] == DayLabels["sabado"]
  {
    assert Miercoles[2] != "miercoles"[2];
    assert Sabado[1] != "sabado"[1];
  }

  /** The nine day keys, accented spellings included. */
  const DayKeys: set<string> :=
    {"lunes", "martes", "miercoles", Miercoles, "jueves", "viernes", "sabado", Sabado, "domingo"}

  /** The nine keys are distinct strings. */
  lemma DayKeyCount()
    ensures |DayKeys| == 9
  {
    var a, b, c := {"lunes", "martes", "jueves", "viernes"}, {"miercoles", Miercoles}, {"sabado", Sabado, "domingo"};
    KeyGroupSizes(a, b, c);
    KeyGroupsDisjoint(a, b, c);
    assert DayKeys == a + b + c;
  }

  lemma KeyGroupSizes(a: set<string>, b: set<string>, c: set<string>)
    requires a == {"lunes", "martes", "jueves", "viernes"}
    requires b == {"miercoles", Miercoles} && c == {"sabado", Sabado, "domingo"}
    ensures |a| == 4 && |b| == 2 && |c| == 3
  {
    assert "lunes"[0] != "martes"[0] && "jueves"[0] != "viernes"[0];
    assert Miercoles[2] != "miercoles"[2];
    assert Sabado[1] != "sabado"[1];
  }

  lemma KeyGroupsDisjoint(a: set<string>, b: set<string>, c: set<string>)
    requires a == {"lunes", "martes", "jueves", "viernes"}
    requires b == {"miercoles", Miercoles} && c == {"sabado", Sabado, "domingo"}
    ensures a * b == {} && (a + b) * c == {}
    ensures |a + b + c| == |a| + |b| + |c|
  {
    assert |"miercoles"| == |Miercoles| == 9;
    assert forall x :: x in a ==> |x| < 9;
    assert "sabado"[0] == Sabado[0] == 's';
    assert forall x :: x in a + b ==> x[0] != 's' && x[0] != 'd';
  }

  /** The seven canonical days take the distinct orders 0..6, Sunday first. */
  lemma CanonicalDayOrders()
    ensures |CanonicalDays| == 7
    ensures forall i :: 0 <= i < 7 ==> CanonicalDays[i] in DayOrder && DayOrder[CanonicalDays[i]] == i
  {
    assert CanonicalDays[0] == "domingo" && CanonicalDays[1] == "lunes" && CanonicalDays[2] == "martes";
    assert CanonicalDays[3] == "miercoles" && CanonicalDays[4] == "jueves";
    assert CanonicalDays[5] == "viernes" && CanonicalDays[6] == "sabado";
  }

  /** Both tables are defined on exactly the nine day keys. */
  lemma DayTableKeys()
    ensures DayOrder.Keys == DayKeys
    ensures DayLabels.Keys == DayKeys
  {
  }

  /** Every order in the table is a JavaScript weekday number. */
  lemma DayOrderRange()
    ensures forall d :: d in DayOrder ==> 0 <= DayOrder[d] <= 6
  {
  }

  /**
   * The seven canonical days take the distinct orders 0..6, Sunday first, and the
   * two tables are defined on exactly the same nine keys.
   */
  lemma DayTablesConsistent()
    ensures |CanonicalDays| == 7
    ensures forall i :: 0 <= i < 7 ==> CanonicalDays[i] in DayOrder && DayOrder[CanonicalDays[i]] == i
    ensures DayOrder.Keys == DayLabels.Keys == DayKeys
    ensures |DayOrder.Keys| == 9
    ensures forall d :: d in DayOrder ==> 0 <= DayOrder[d] <= 6
  {
    CanonicalDayOrders();
    DayTableKeys();
    DayOrderRange();
    DayKeyCount();
  }

  /** The palette has ten entries, so any index reduced modulo its size picks one of them. */
  function ColorAt(index: nat): (c: string)
    ensures |SemesterColors| == 10
    ensures c in SemesterColors
  {
    SemesterColors[index % |SemesterColors|]
  }
}
