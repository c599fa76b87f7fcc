/**
  The progress map of the curriculum tracker as values: the saved rows, the
  sparse day-to-record table built from them, the per-day view derived from
  that table, and the toggle that deletes or inserts one day's record.
  The stateful tracker in module Session is proved against these functions.
*/
module Progress {
  import opened Options

  /** A saved progress row, as the backend returns it (the user column is not modelled). */
  datatype Record = Record(
    id: int,                      // the row identifier assigned by the backend
    day: int,
    completed: bool,
    notes: Option<string>,        // may be null in a saved row
    completedAt: Option<string>   // a "YYYY-MM-DD" date, may be null
  )

  /** One entry of the curriculum: a day number and its topic. */
  datatype DayDescriptor = DayDescriptor(day: int, topic: string)

  /** What is displayed for one curriculum day. */
  datatype DayView = DayView(
    day: int,
    topic: string,
    completed: bool,
    completedAt: Option<string>,
    notes: string
  )

  /** The request the toggle sends to the backend. */
  datatype StoreCall =
    | DeleteRow(id: int)
    | InsertRow(day: int, completed: bool, notes: string, completedAt: string)

  type ProgressMap = map<int, Record>

  // ---------------------------------------------------------------------------
  // Load: rows -> table

  /** The set of day numbers occurring in the rows. */
  ghost function DaysOf(rows: seq<Record>): set<int>
  {
    set i | 0 <= i < |rows| :: rows[i].day
  }

  /** The table obtained by storing each row under its day, in sequence order. */
  function MapOfRows(rows: seq<Record>): (r: ProgressMap)
    ensures forall d :: d in r ==> r[d].day == d
    ensures |r| <= |rows|
  {
    if rows == [] then map[]
    else MapOfRows(rows[..|rows| - 1])[rows[|rows| - 1].day := rows[|rows| - 1]]
  }

  /** The table's keys are exactly the days of the rows. */
  lemma {:induction false} LoadKeys(rows: seq<Record>)
    ensures MapOfRows(rows).Keys == DaysOf(rows)
  {
    if rows != [] {
      var n := |rows|;
      var init := rows[..n - 1];
      LoadKeys(init);
      assert DaysOf(rows) == DaysOf(init) + {rows[n - 1].day} by {
        forall d | d in DaysOf(rows) ensures d in DaysOf(init) + {rows[n - 1].day} {
          var i :| 0 <= i < n && rows[i].day == d;
          if i < n - 1 { assert init[i] == rows[i]; }
        }
        forall d | d in DaysOf(init) ensures d in DaysOf(rows) {
          var i :| 0 <= i < n - 1 && init[i].day == d;
          assert rows[i] == init[i];
        }
      }
    }
  }

  /** When several rows share a day, the last of them is the stored entry. */
  lemma {:induction false} LoadLastWins(rows: seq<Record>, i: int)
    requires 0 <= i < |rows|
    requires forall j :: i < j < |rows| ==> rows[j].day != rows[i].day
    ensures rows[i].day in MapOfRows(rows) && MapOfRows(rows)[rows[i].day] == rows[i]
  {
    var n := |rows|;
    if i < n - 1 {
      var init := rows[..n - 1];
      assert init[i] == rows[i];
      forall j | i < j < |init| ensures init[j].day != init[i].day {
        assert init[j] == rows[j];
      }
      LoadLastWins(init, i);
    }
  }

  /** Every stored entry is a row of the input, and no later row has its day. */
  lemma {:induction false} LoadEntryIsRow(rows: seq<Record>, d: int)
    requires d in MapOfRows(rows)
    ensures exists i :: 0 <= i < |rows| && rows[i] == MapOfRows(rows)[d] && rows[i].day == d &&
                        forall j :: i < j < |rows| ==> rows[j].day != d
  {
    var n := |rows|;
    var init := rows[..n - 1];
    if rows[n - 1].day == d {
      assert rows[n - 1] == MapOfRows(rows)[d];
    } else {
      LoadEntryIsRow(init, d);
      var i :| 0 <= i < |init| && init[i] == MapOfRows(init)[d] && init[i].day == d &&
               forall j :: i < j < |init| ==> init[j].day != d;
      assert rows[i] == init[i];
      forall j | i < j < n ensures rows[j].day != d {
        if j < n - 1 { assert rows[j] == init[j]; }
      }
    }
  }

  // ---------------------------------------------------------------------------
  // View: table -> per-day display

  /** The notes shown for a saved record: its notes, or "" when they are null. */
  function NotesText(r: Record): (s: string)
    ensures r.notes.Some? ==> s == r.notes.value
    ensures r.notes.None? ==> s == ""
  {
    match r.notes
    case Some(n) => n
    case None => ""
  }

  /** The display of one curriculum day under the table m. */
  function ViewOf(d: DayDescriptor, m: ProgressMap): (r: DayView)
    ensures r.day == d.day && r.topic == d.topic
    ensures r.completed <==> d.day in m && m[d.day].completed
    ensures d.day in m ==> r.completedAt == m[d.day].completedAt && r.notes == NotesText(m[d.day])
    ensures d.day !in m ==> r.completedAt == None && r.notes == ""
  {
    if d.day in m then
      DayView(d.day, d.topic, m[d.day].completed, m[d.day].completedAt, NotesText(m[d.day]))
    else
      DayView(d.day, d.topic, false, None, "")
  }

  /** The display of the whole curriculum: one entry per day, in curriculum order. */
  function View(days: seq<DayDescriptor>, m: ProgressMap): (v: seq<DayView>)
    ensures |v| == |days|
    ensures forall i :: 0 <= i < |days| ==> v[i].day == days[i].day && v[i].topic == days[i].topic
    ensures forall i :: 0 <= i < |days| ==>
              (v[i].completed <==> days[i].day in m && m[days[i].day].completed)
    ensures forall i :: 0 <= i < |days| && days[i].day in m ==>
              v[i].completedAt == m[days[i].day].completedAt && v[i].notes == NotesText(m[days[i].day])
    ensures forall i :: 0 <= i < |days| && days[i].day !in m ==>
              v[i].completedAt == None && v[i].notes == ""
  {
    if days == [] then [] else [ViewOf(days[0], m)] + View(days[1..], m)
  }

  /** With no saved progress, every day is displayed incomplete with empty notes. */
  lemma {:induction false} ViewOfEmptyMap(days: seq<DayDescriptor>, i: int)
    requires 0 <= i < |days|
    ensures View(days, map[])[i] == DayView(days[i].day, days[i].topic, false, None, "")
  {
  }

  /**
    The view of freshly loaded rows: a day that occurs in the rows shows the last
    row with that day; a day that occurs in none shows as incomplete with empty notes.
  */
  lemma ViewAfterLoad(days: seq<DayDescriptor>, rows: seq<Record>, i: int)
    requires 0 <= i < |days|
    ensures days[i].day !in DaysOf(rows) ==>
              View(days, MapOfRows(rows))[i] == DayView(days[i].day, days[i].topic, false, None, "")
    ensures forall j :: 0 <= j < |rows| && rows[j].day == days[i].day &&
                        (forall k :: j < k < |rows| ==> rows[k].day != rows[j].day) ==>
              View(days, MapOfRows(rows))[i] ==
                DayView(days[i].day, days[i].topic, rows[j].completed, rows[j].completedAt, NotesText(rows[j]))
  {
    LoadKeys(rows);
    var v := View(days, MapOfRows(rows));
    assert v[i].day == days[i].day && v[i].topic == days[i].topic;
    forall j | 0 <= j < |rows| && rows[j].day == days[i].day &&
               (forall k :: j < k < |rows| ==> rows[k].day != rows[j].day)
      ensures v[i] == DayView(days[i].day, days[i].topic, rows[j].completed, rows[j].completedAt, NotesText(rows[j]))
    {
      LoadLastWins(rows, j);
    }
  }

  // ---------------------------------------------------------------------------
  // Toggle

  /** The date part of an ISO timestamp: everything before the first 'T'. */
  function DatePart(iso: string): (r: string)
    ensures |r| <= |iso| && r == iso[..|r|]
    ensures 'T' !in r
    ensures |r| < |iso| ==> iso[|r|] == 'T'
  {
    if iso == [] || iso[0] == 'T' then [] else [iso[0]] + DatePart(iso[1..])
  }

  /** A date followed by 'T' and a time gives back the date. */
  lemma DatePartOfTimestamp(date: string, time: string)
    requires 'T' !in date
    ensures DatePart(date + "T" + time) == date
  {
    var s := date + "T" + time;
    var r := DatePart(s);
    assert s[|date|] == 'T';
    assert forall k :: 0 <= k < |date| ==> s[k] == date[k];
    assert r == s[..|r|] == date;
  }

  /** The record stored for a day that the toggle marks complete. */
  function CompletedRecord(day: int, text: string, nowIso: string, insertedId: int): (r: Record)
    ensures r.id == insertedId && r.day == day && r.completed && r.notes == Some(text)
    ensures r.completedAt.Some? && 'T' !in r.completedAt.value && r.completedAt.value <= nowIso
    ensures |r.completedAt.value| < |nowIso| ==> nowIso[|r.completedAt.value|] == 'T'
  {
    Record(insertedId, day, true, Some(text), Some(DatePart(nowIso)))
  }

  /** The backend request of a toggle: delete the saved row by its id, or insert a completed row. */
  function ToggleCall(m: ProgressMap, day: int, text: string, nowIso: string): (c: StoreCall)
    ensures c.DeleteRow? <==> day in m
    ensures day in m ==> c.id == m[day].id
    ensures day !in m ==> c == InsertRow(day, true, text, DatePart(nowIso))
  {
    if day in m then DeleteRow(m[day].id) else InsertRow(day, true, text, DatePart(nowIso))
  }

  /**
    The table after a toggle of day: a present key is removed, an absent one gets
    the inserted row (the given fields plus the backend's insertedId).
  */
  function Toggled(m: ProgressMap, day: int, text: string, nowIso: string, insertedId: int): (r: ProgressMap)
    ensures day in m ==> r.Keys == m.Keys - {day} && |r| == |m| - 1
    ensures day !in m ==> r.Keys == m.Keys + {day} && |r| == |m| + 1
    ensures day !in m ==> r[day].day == day && r[day].completed && r[day].id == insertedId &&
                          r[day].notes == Some(text) && r[day].completedAt == Some(DatePart(nowIso))
    ensures forall k :: k != day ==> (k in r <==> k in m)
    ensures forall k :: k != day && k in m ==> r[k] == m[k]
  {
    if day in m then m - {day} else m[day := CompletedRecord(day, text, nowIso, insertedId)]
  }

  /** Toggling an absent day twice gives back the original table. */
  lemma ToggleTwiceFromAbsent(m: ProgressMap, day: int, text1: string, iso1: string, id1: int,
                              text2: string, iso2: string, id2: int)
    requires day !in m
    ensures Toggled(Toggled(m, day, text1, iso1, id1), day, text2, iso2, id2) == m
  {
  }

  /**
    Toggling a saved day twice keeps the key set, but the entry is a fresh record:
    the old notes, date and id are replaced by the textarea text, today's date and the new id.
  */
  lemma ToggleTwiceFromPresent(m: ProgressMap, day: int, text1: string, iso1: string, id1: int,
                               text2: string, iso2: string, id2: int)
    requires day in m
    ensures var r := Toggled(Toggled(m, day, text1, iso1, id1), day, text2, iso2, id2);
            r.Keys == m.Keys && r[day] == CompletedRecord(day, text2, iso2, id2) &&
            forall k :: k in m && k != day ==> r[k] == m[k]
  {
  }

  /**
    The view derived from the table after a toggle, as the curriculum loader would
    render it: only the toggled day's entry changes, to the state the toggle reached.
  */
  lemma ViewAfterToggle(days: seq<DayDescriptor>, m: ProgressMap, day: int, text: string, nowIso: string,
                        insertedId: int, i: int)
    requires 0 <= i < |days|
    ensures var before, after := View(days, m), View(days, Toggled(m, day, text, nowIso, insertedId));
            (days[i].day != day ==> after[i] == before[i]) &&
            (days[i].day == day && day in m ==>
               after[i] == DayView(day, days[i].topic, false, None, "")) &&
            (days[i].day == day && day !in m ==>
               after[i] == DayView(day, days[i].topic, true, Some(DatePart(nowIso)), text))
  {
  }

  /**
    The toggle goes by presence of the key only: a saved row whose completed flag is
    false is displayed as incomplete, yet toggling it deletes that row, so the day
    stays incomplete and the count goes down by one.
  */
  lemma IncompleteRowIsDeletedByToggle(days: seq<DayDescriptor>, m: ProgressMap, i: int,
                                       text: string, nowIso: string, insertedId: int)
    requires 0 <= i < |days|
    requires days[i].day in m && !m[days[i].day].completed
    ensures !View(days, m)[i].completed
    ensures ToggleCall(m, days[i].day, text, nowIso) == DeleteRow(m[days[i].day].id)
    ensures var m' := Toggled(m, days[i].day, text, nowIso, insertedId);
            days[i].day !in m' && |m'| == |m| - 1 && !View(days, m')[i].completed
  {
  }

  // ---------------------------------------------------------------------------
  // Count

  /** The days whose saved record has its completed flag set. */
  function CompletedDays(m: ProgressMap): (s: set<int>)
    ensures s <= m.Keys
    ensures forall d :: d in s <==> d in m && m[d].completed
  {
    set d | d in m && m[d].completed
  }

  /**
    The count is the number of keys; it equals the number of completed flags exactly
    when every entry has its flag set. For example, map[3 := Record(7, 3, false, None, None)]
    has count 1 but no completed flag.
  */
  lemma CountIsKeysNotFlags(m: ProgressMap)
    ensures |CompletedDays(m)| == |m| <==> forall d :: d in m ==> m[d].completed
  {
    if forall d :: d in m ==> m[d].completed {
      assert CompletedDays(m) == m.Keys;
    } else {
      var d :| d in m && !m[d].completed;
      SubsetCard(CompletedDays(m), m.Keys - {d});
    }
  }

  /** The completed flags never outnumber the keys. */
  lemma CompletedAtMostCount(m: ProgressMap)
    ensures |CompletedDays(m)| <= |m|
  {
    SubsetCard(CompletedDays(m), m.Keys);
  }

  /** The days of the curriculum. */
  function CurriculumDays(days: seq<DayDescriptor>): (s: set<int>)
    ensures forall i :: 0 <= i < |days| ==> days[i].day in s
    ensures forall d :: d in s ==> exists i :: 0 <= i < |days| && days[i].day == d
  {
    set i | 0 <= i < |days| :: days[i].day
  }

  /** A toggle of a curriculum day keeps the table's keys among the curriculum days. */
  lemma ToggleKeepsKeysInCurriculum(days: seq<DayDescriptor>, m: ProgressMap, day: int,
                                    text: string, nowIso: string, insertedId: int)
    requires m.Keys <= CurriculumDays(days)
    requires day in CurriculumDays(days)
    ensures Toggled(m, day, text, nowIso, insertedId).Keys <= CurriculumDays(days)
  {
  }

  /** While the keys are curriculum days, the count is at most the curriculum's length. */
  lemma CountWithinCurriculum(days: seq<DayDescriptor>, m: ProgressMap)
    requires m.Keys <= CurriculumDays(days)
    ensures |m| <= |days|
  {
    SubsetCard(m.Keys, CurriculumDays(days));
    CurriculumDaysCard(days);
  }

  /** A curriculum has no more distinct days than entries. */
  lemma {:induction false} CurriculumDaysCard(days: seq<DayDescriptor>)
    ensures |CurriculumDays(days)| <= |days|
  {
    if days != [] {
      var rest := days[1..];
      CurriculumDaysCard(rest);
      assert CurriculumDays(days) <= CurriculumDays(rest) + {days[0].day} by {
        forall d | d in CurriculumDays(days) ensures d in CurriculumDays(rest) + {days[0].day} {
          var i :| 0 <= i < |days| && days[i].day == d;
          if i > 0 { assert rest[i - 1] == days[i]; }
        }
      }
      SubsetCard(CurriculumDays(days), CurriculumDays(rest) + {days[0].day});
    }
  }

  /** A subset is no larger than its superset. */
  lemma {:induction false} SubsetCard<T>(a: set<T>, b: set<T>)
    requires a <= b
    ensures |a| <= |b|
    decreases |b|
  {
    if a != {} {
      var x :| x in a;
      SubsetCard(a - {x}, b - {x});
    }
  }
}
