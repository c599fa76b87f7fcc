/**
  The page's mutable progress state: the day-to-record table that the loader
  fills and the click handler updates in place, and the progress count.
*/
module Session {
  import opened Options
  import opened Progress

  class Tracker {
    /** The sparse table from day number to the saved row of that day. */
    var progressMap: ProgressMap

    /** The table starts empty. */
    constructor ()
      ensures progressMap == map[]
    {
      progressMap := map[];
    }

    /** The progress count: the number of keys in the table, whatever their completed flags. */
    function Count(): (n: nat)
      reads this
      ensures n == |progressMap.Keys|
      ensures n >= |CompletedDays(progressMap)|
      ensures n == 0 <==> progressMap == map[]
    {
      CompletedAtMostCount(progressMap);
      |progressMap|
    }

    /**
      Stores the rows returned by the backend. A reported error leaves the table
      as it was; otherwise the table is rebuilt from scratch, row by row.
    */
    method Load(rows: seq<Record>, error: bool)
      modifies this
      ensures error ==> progressMap == old(progressMap)
      ensures !error ==> progressMap == MapOfRows(rows)
      ensures !error ==> progressMap.Keys == DaysOf(rows)
    {
      if error {
        return;
      }
      progressMap := map[];
      var i := 0;
      while i < |rows|
        invariant 0 <= i <= |rows|
        invariant progressMap == MapOfRows(rows[..i])
      {
        assert rows[..i + 1][..i] == rows[..i];
        progressMap := progressMap[rows[i].day := rows[i]];
        i := i + 1;
      }
      assert rows[..|rows|] == rows;
      LoadKeys(rows);
    }

    /**
      The completion button of one day: a day with a saved row has it deleted by
      its id; a day without one gets a completed row with the textarea text and
      today's date, to which the backend assigns insertedId. Returns the request
      sent to the backend.
    */
    method Toggle(day: int, text: string, nowIso: string, insertedId: int) returns (call: StoreCall)
      modifies this
      ensures call == ToggleCall(old(progressMap), day, text, nowIso)
      ensures progressMap == Toggled(old(progressMap), day, text, nowIso, insertedId)
      ensures Count() == if day in old(progressMap) then old(Count()) - 1 else old(Count()) + 1
      ensures forall k :: k != day ==> (k in progressMap <==> k in old(progressMap))
      ensures forall k :: k != day && k in old(progressMap) ==> progressMap[k] == old(progressMap)[k]
    {
      if day in progressMap {
        var existing := progressMap[day];
        call := DeleteRow(existing.id);
        progressMap := progressMap - {day};
      } else {
        call := InsertRow(day, true, text, DatePart(nowIso));
        var data := Record(insertedId, day, call.completed, Some(call.notes), Some(call.completedAt));
        progressMap := progressMap[day := data];
      }
    }
  }
}
