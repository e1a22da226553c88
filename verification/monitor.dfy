/**
 * One account's run: read the grade table, build the snapshot, compare its size with the
 * recorded count, and on an increase post the notification and overwrite the record.
 * An exception raised inside the try block (lines 76-120) is caught by its except clause and
 * ends the run without touching the record. Starting the browser driver happens before that
 * block; its failure is not caught and is not part of this model.
 */
module Monitor {
  import opened Wrappers
  import opened Text
  import opened Rows
  import opened Snapshots
  import opened Checkpoint
  import opened Notifier

  /** How a run ends; the console message printed for each is not modelled. */
  datatype RunOutcome =
    | NavigationFailed                     // a browser step inside the try raised before the table was read
    | ExtractionFailed(error: ExtractError) // a kept row had no name or no numeric token
    | NoNewGrades(count: nat, last: int)    // len(results) <= last
    | DeliveryFailed(count: nat)            // requests.post raised, so the record was not written
    | Updated(count: nat)                   // notified, and the record now holds count

  /** The outcome, the record file afterwards, and the message posted, if any. */
  datatype RunEffect = RunEffect(outcome: RunOutcome, record: Option<string>, sent: Option<Payload>)

  /** The notification rule: notify exactly when the snapshot has more entries than recorded. */
  predicate HasNewGrades(count: nat, last: int) {
    count > last
  }

  /** The comparison step of a run on the extracted snapshot: notify and rewrite the record
      when the snapshot is larger than the recorded count, unless posting raises. */
  function Decide(stuId: string, snap: Snapshot, postRaises: bool, record: Option<string>): (e: RunEffect)
    requires snap.Valid()
  {
    var count := |snap.scores|;
    var last := ReadCount(record);
    if !HasNewGrades(count, last) then RunEffect(NoNewGrades(count, last), record, None)
    else if postRaises then RunEffect(DeliveryFailed(count), record, None)
    else RunEffect(Updated(count), Some(WriteCount(count)), Some(Notification(stuId, snap)))
  }

  /** One run of one account as a function of the table's rows (None when the browser steps
      failed), whether posting raises, and the record file's content before the run. */
  function RunOnce(stuId: string, page: Option<seq<string>>, postRaises: bool, record: Option<string>): (e: RunEffect) {
    match page
    case None => RunEffect(NavigationFailed, record, None)
    case Some(rows) =>
      match Extract(rows)
      case Err(e) => RunEffect(ExtractionFailed(e), record, None)
      case Ok(snap) => Decide(stuId, snap, postRaises, record)
  }

  /** A run that got past extraction is the comparison step on the extracted snapshot. */
  lemma RunDecides(stuId: string, page: Option<seq<string>>, postRaises: bool, record: Option<string>)
    requires page.Some? && Extract(page.value).Ok?
    ensures RunOnce(stuId, page, postRaises, record) == Decide(stuId, Extract(page.value).value, postRaises, record)
  {
  }

  /** Only a run that got past extraction can update. */
  lemma UpdateNeedsSnapshot(stuId: string, page: Option<seq<string>>, postRaises: bool, record: Option<string>)
    requires RunOnce(stuId, page, postRaises, record).outcome.Updated?
    ensures page.Some? && Extract(page.value).Ok?
  {
  }

  /** The notification is attempted exactly when extraction succeeds and the snapshot is larger
      than the recorded count; it is sent and the record rewritten exactly when, in addition,
      posting does not raise. Otherwise the record is left as it was and nothing is sent. */
  lemma NotifyIffMoreGrades(stuId: string, page: Option<seq<string>>, postRaises: bool, record: Option<string>)
    ensures var e := RunOnce(stuId, page, postRaises, record);
      (e.outcome.Updated? || e.outcome.DeliveryFailed?) <==>
        (page.Some? && Extract(page.value).Ok? && |Extract(page.value).value.scores| > ReadCount(record))
    ensures var e := RunOnce(stuId, page, postRaises, record);
      e.outcome.Updated? <==> e.sent.Some?
    ensures var e := RunOnce(stuId, page, postRaises, record);
      !e.outcome.Updated? ==> e.record == record && e.sent.None?
  {
  }

  /** After a write the record reads back as exactly the snapshot's size, which is strictly
      larger than what it held before: the recorded count only grows. */
  lemma WriteStoresCount(stuId: string, page: Option<seq<string>>, postRaises: bool, record: Option<string>)
    requires RunOnce(stuId, page, postRaises, record).outcome.Updated?
    ensures var e := RunOnce(stuId, page, postRaises, record);
      && page.Some? && Extract(page.value).Ok?
      && e.outcome.count == |Extract(page.value).value.scores|
      && ReadCount(e.record) == e.outcome.count
      && ReadCount(e.record) > ReadCount(record)
  {
    UpdateNeedsSnapshot(stuId, page, postRaises, record);
    RunDecides(stuId, page, postRaises, record);
    ReadAfterWrite(|Extract(page.value).value.scores|);
  }

  /** Running again on the same table after an update finds nothing new: no message, and the
      record stays as written. */
  lemma RunIsIdempotent(stuId: string, page: Option<seq<string>>, postRaises: bool, record: Option<string>, postRaisesAgain: bool)
    requires RunOnce(stuId, page, postRaises, record).outcome.Updated?
    ensures var e := RunOnce(stuId, page, postRaises, record);
      var c := e.outcome.count;
      RunOnce(stuId, page, postRaisesAgain, e.record) == RunEffect(NoNewGrades(c, c), e.record, None)
  {
    UpdateNeedsSnapshot(stuId, page, postRaises, record);
    var snap := Extract(page.value).value;
    var c := |snap.scores|;
    RunDecides(stuId, page, postRaises, record);
    var e := RunOnce(stuId, page, postRaises, record);
    assert e == RunEffect(Updated(c), Some(WriteCount(c)), Some(Notification(stuId, snap)));
    ReadAfterWrite(c);
    RunDecides(stuId, page, postRaisesAgain, e.record);
  }

  /** The message sent on an update has one field per snapshot entry, each showing that
      course's score, in the dict's order, and carries the account in its title. */
  lemma SentMessageListsSnapshot(stuId: string, page: Option<seq<string>>, postRaises: bool, record: Option<string>)
    requires RunOnce(stuId, page, postRaises, record).outcome.Updated?
    ensures var e := RunOnce(stuId, page, postRaises, record);
      var snap := Extract(page.value).value;
      && e.sent.Some?
      && e.sent.value.title == "\U{1F195} 帳號 " + stuId + " 偵測到新成績！"
      && |e.sent.value.fields| == |snap.scores|
      && (forall i :: 0 <= i < |snap.order| ==>
            snap.order[i] in snap.scores
            && e.sent.value.fields[i] == CourseField(snap.order[i], snap.scores[snap.order[i]]))
  {
    var snap := Extract(page.value).value;
    forall i | 0 <= i < |snap.order|
      ensures snap.order[i] in snap.scores
      ensures Fields(snap)[i] == CourseField(snap.order[i], snap.scores[snap.order[i]])
    {
      SizeIsOrderLength(snap);
      FieldsFollowOrder(snap, i);
    }
  }

  /** A missing record file counts as 0, so the first run with any grade notifies. */
  lemma FirstRunNotifies(stuId: string, rows: seq<string>)
    requires Extract(rows).Ok? && |Extract(rows).value.scores| > 0
    ensures RunOnce(stuId, Some(rows), false, None).outcome == Updated(|Extract(rows).value.scores|)
  {
  }

  /** With 5 recorded and 6 entries extracted, the message goes out and the record becomes "6";
      with 6 recorded and 6 extracted, nothing is sent and the record stays "6", even when
      scores changed. */
  lemma CountScenarios(stuId: string, rows: seq<string>)
    requires Extract(rows).Ok? && |Extract(rows).value.scores| == 6
    ensures RunOnce(stuId, Some(rows), false, Some("5")).outcome == Updated(6)
    ensures RunOnce(stuId, Some(rows), false, Some("5")).record == Some("6")
    ensures RunOnce(stuId, Some(rows), false, Some("6")) == RunEffect(NoNewGrades(6, 6), Some("6"), None)
  {
    ReadAfterWrite(5);
    ReadAfterWrite(6);
    assert WriteCount(5) == "5" && WriteCount(6) == "6";
  }

  /** GradeMonitor: one account. The record field stands for the record file's content and the
      outbox for the messages posted to the account's webhook. */
  class GradeMonitor {
    const stuId: string
    var record: Option<string>
    var outbox: seq<Payload>

    constructor (stuId: string, record: Option<string>)
      ensures this.stuId == stuId && this.record == record && outbox == []
    {
      this.stuId := stuId;
      this.record := record;
      outbox := [];
    }

    /** Posts the message for snap; when posting raises, nothing is delivered. */
    method SendNotification(snap: Snapshot, postRaises: bool) returns (delivered: bool)
      requires snap.Valid()
      modifies this`outbox
      ensures delivered == !postRaises
      ensures outbox == if delivered then old(outbox) + [Notification(stuId, snap)] else old(outbox)
    {
      delivered := !postRaises;
      if delivered {
        outbox := outbox + [Notification(stuId, snap)];
      }
    }

    /** run(): the record and the outbox change exactly as RunOnce says. */
    method Run(page: Option<seq<string>>, postRaises: bool) returns (outcome: RunOutcome)
      modifies this`record, this`outbox
      ensures var e := RunOnce(stuId, page, postRaises, old(record));
        && outcome == e.outcome
        && record == e.record
        && outbox == old(outbox) + (if e.sent.Some? then [e.sent.value] else [])
    {
      if page.None? {
        return NavigationFailed;
      }
      var extracted := BuildSnapshot(page.value);
      if extracted.Err? {
        return ExtractionFailed(extracted.error);
      }
      var results := extracted.value;
      var count := |results.scores|;
      var last := ReadCount(record);
      if count > last {
        var delivered := SendNotification(results, postRaises);
        if !delivered {
          return DeliveryFailed(count);
        }
        record := Some(WriteCount(count));
        return Updated(count);
      }
      return NoNewGrades(count, last);
    }
  }
}
