/** The marking and daily-report routes (src/routes/attendanceRoutes.js,
    POST /mark and GET /daily) as pure functions of the ledger. */
module AttendanceRoutes {
  import opened Responses
  import opened Calendar
  import opened StudentModel
  import opened AttendanceModel

  /** One element of the request's `records` array. `studentId` is `None`
      when it is missing or falsy; a missing or falsy status is `""`. */
  datatype Entry = Entry(studentId: Option<StudentId>, status: string)

  /** `if (!rec.studentId || !rec.status) continue;` lets these through. */
  predicate Complete(e: Entry) {
    e.studentId.Some? && e.status != ""
  }

  /** Whether the marking loop writes entry `e`. As written (`strict` false)
      it writes every complete entry; corrected (`strict` true) it also
      requires the status to be one the schema's enum admits. */
  predicate Writes(e: Entry, strict: bool) {
    Complete(e) && (strict ==> InEnum(e.status))
  }

  datatype Upserted = Upserted(ledger: Ledger, doc: Record)

  /** `findOneAndUpdate({ studentId, date }, { studentId, date, status },
      { new: true, upsert: true })`: overwrite the status of the record
      holding the key, or append a new record when there is none. */
  function Upsert(l: Ledger, id: StudentId, day: Instant, status: string): (r: Upserted)
    ensures r.doc == Record(id, day, status)
    ensures |l| <= |r.ledger| <= |l| + 1
    ensures UniqueKeys(l) ==> forall i :: 0 <= i < |l| ==>
              r.ledger[i] == (if KeyOf(l[i]) == Key(id, day) then r.doc else l[i])
    ensures forall i :: |l| <= i < |r.ledger| ==>
              r.ledger[i] == r.doc && forall j :: 0 <= j < |l| ==> KeyOf(l[j]) != Key(id, day)
    ensures exists i :: 0 <= i < |r.ledger| && r.ledger[i] == r.doc
    ensures UniqueKeys(l) ==> UniqueKeys(r.ledger)
  {
    var doc := Record(id, day, status);
    match FindKey(l, Key(id, day))
    case Some(i) =>
      var l' := l[i := doc];
      assert l'[i] == doc;
      assert UniqueKeys(l) ==> forall j :: 0 <= j < |l| && j != i ==> KeyOf(l[j]) != Key(id, day);
      Upserted(l', doc)
    case None =>
      var l' := l + [doc];
      assert l'[|l|] == doc;
      Upserted(l', doc)
  }

  /** The ledger after the marking loop and the documents it returns. */
  datatype Marked = Marked(ledger: Ledger, docs: seq<Record>)

  /** The `for (const rec of records)` loop over the normalised `day`. */
  function Apply(l: Ledger, day: Instant, es: seq<Entry>, strict: bool): (r: Marked)
    ensures |r.docs| == |Selected(es, strict)| <= |es|
    ensures |l| <= |r.ledger| <= |l| + |r.docs|
    ensures forall k :: 0 <= k < |r.docs| ==> r.docs[k].date == day
    decreases |es|
  {
    if es == [] then Marked(l, [])
    else if !Writes(es[0], strict) then Apply(l, day, es[1..], strict)
    else
      var u := Upsert(l, es[0].studentId.value, day, es[0].status);
      var rest := Apply(u.ledger, day, es[1..], strict);
      Marked(rest.ledger, [u.doc] + rest.docs)
  }

  function MarkWith(l: Ledger, date: Option<Instant>, records: Option<seq<Entry>>, strict: bool): (r: Result<Marked>)
    ensures r.Err? <==> date.None? || records.None?
    ensures r.Err? ==> r.error == BadRequest(DATE_AND_RECORDS_REQUIRED)
  {
    if date.None? || records.None? then Err(BadRequest(DATE_AND_RECORDS_REQUIRED))
    else Ok(Apply(l, StartOfDay(date.value), records.value, strict))
  }

  /** POST /mark as the source writes it. `date` is `None` when missing;
      `records` is `None` when it is not an array. Any complete entry is
      written, whatever its status string. */
  function MarkAsWritten(l: Ledger, date: Option<Instant>, records: Option<seq<Entry>>): (r: Result<Marked>)
    ensures r.Err? <==> date.None? || records.None?
  {
    MarkWith(l, date, records, false)
  }

  /** POST /mark with the schema's status enum honoured: an entry whose
      status is neither "present" nor "absent" is skipped like an
      incomplete one. */
  function Mark(l: Ledger, date: Option<Instant>, records: Option<seq<Entry>>): (r: Result<Marked>)
    ensures r.Err? <==> date.None? || records.None?
    ensures r.Err? ==> r.error == BadRequest(DATE_AND_RECORDS_REQUIRED)
  {
    MarkWith(l, date, records, true)
  }

  // ---- Specification of the loop ----

  /** The status the batch gives student `id`: that of the last entry for
      `id` the loop writes, if there is one. */
  function LastStatus(es: seq<Entry>, id: StudentId, strict: bool): Option<string>
    decreases |es|
  {
    if es == [] then None
    else
      var e := es[|es| - 1];
      if Writes(e, strict) && e.studentId.value == id then Some(e.status)
      else LastStatus(es[..|es| - 1], id, strict)
  }

  /** The batch writes the key of record `x`. */
  predicate InBatch(x: Record, day: Instant, es: seq<Entry>, strict: bool) {
    x.date == day && LastStatus(es, x.studentId, strict).Some?
  }

  /** Record `x` as the batch leaves it. */
  function Remarked(x: Record, day: Instant, es: seq<Entry>, strict: bool): Record {
    if InBatch(x, day, es, strict) then x.(status := LastStatus(es, x.studentId, strict).value) else x
  }

  /** Reading `LastStatus` from the front: a later entry for the same
      student wins over the first one. */
  lemma {:induction false} LastStatusCons(e: Entry, rest: seq<Entry>, id: StudentId, strict: bool)
    ensures LastStatus([e] + rest, id, strict) ==
            if LastStatus(rest, id, strict).Some? then LastStatus(rest, id, strict)
            else if Writes(e, strict) && e.studentId.value == id then Some(e.status)
            else None
    decreases |rest|
  {
    var es := [e] + rest;
    if rest != [] {
      assert es[..|es| - 1] == [e] + rest[..|rest| - 1];
      assert es[|es| - 1] == rest[|rest| - 1];
      LastStatusCons(e, rest[..|rest| - 1], id, strict);
    }
  }

  /** Only statuses of written entries are ever chosen. */
  lemma {:induction false} LastStatusWritten(es: seq<Entry>, id: StudentId, strict: bool)
    requires LastStatus(es, id, strict).Some?
    ensures exists k :: 0 <= k < |es| && Writes(es[k], strict) && es[k].studentId == Some(id)
                        && es[k].status == LastStatus(es, id, strict).value
    decreases |es|
  {
    var e := es[|es| - 1];
    if !(Writes(e, strict) && e.studentId.value == id) {
      LastStatusWritten(es[..|es| - 1], id, strict);
      var k :| 0 <= k < |es| - 1 && Writes(es[..|es| - 1][k], strict) && es[..|es| - 1][k].studentId == Some(id)
               && es[..|es| - 1][k].status == LastStatus(es[..|es| - 1], id, strict).value;
      assert es[k] == es[..|es| - 1][k];
    }
  }

  /** Every record already in the ledger keeps its place and key and takes
      the batch's last status for it. */
  predicate KeepsOld(l: Ledger, l': Ledger, day: Instant, es: seq<Entry>, strict: bool) {
    |l| <= |l'| && forall i :: 0 <= i < |l| ==> l'[i] == Remarked(l[i], day, es, strict)
  }

  /** Appended records carry a written key that had no record, with the
      batch's last status for it. */
  predicate AppendsNew(l: Ledger, l': Ledger, day: Instant, es: seq<Entry>, strict: bool) {
    forall i :: |l| <= i < |l'| ==>
      l'[i].date == day && LastStatus(es, l'[i].studentId, strict) == Some(l'[i].status)
      && FindKey(l, KeyOf(l'[i])).None?
  }

  /** Every key the batch writes has a record. */
  ghost predicate CoversBatch(l': Ledger, day: Instant, es: seq<Entry>, strict: bool) {
    forall id :: LastStatus(es, id, strict).Some? ==> FindKey(l', Key(id, day)).Some?
  }

  /** A batch whose keys all have records appends nothing. */
  ghost predicate AppendsOnlyMissing(l: Ledger, l': Ledger, day: Instant, es: seq<Entry>, strict: bool) {
    CoversBatch(l, day, es, strict) ==> |l'| == |l|
  }

  /** How `LastStatus` of `[e] + rest` follows from that of `rest`. */
  ghost predicate ConsRelation(e: Entry, rest: seq<Entry>, strict: bool) {
    forall id :: LastStatus([e] + rest, id, strict) ==
                 if LastStatus(rest, id, strict).Some? then LastStatus(rest, id, strict)
                 else if Writes(e, strict) && e.studentId.value == id then Some(e.status)
                 else None
  }

  lemma ConsRelationHolds(e: Entry, rest: seq<Entry>, strict: bool)
    ensures ConsRelation(e, rest, strict)
  {
    forall id ensures LastStatus([e] + rest, id, strict) ==
                      if LastStatus(rest, id, strict).Some? then LastStatus(rest, id, strict)
                      else if Writes(e, strict) && e.studentId.value == id then Some(e.status)
                      else None {
      LastStatusCons(e, rest, id, strict);
    }
  }

  /** Everything the loop does to a ledger with unique keys. */
  ghost predicate Effect(l: Ledger, l': Ledger, day: Instant, es: seq<Entry>, strict: bool) {
    && UniqueKeys(l')
    && KeepsOld(l, l', day, es, strict)
    && AppendsNew(l, l', day, es, strict)
    && CoversBatch(l', day, es, strict)
    && AppendsOnlyMissing(l, l', day, es, strict)
  }

  /** The effect of the loop on a ledger with unique keys. */
  lemma {:induction false} ApplyFrame(l: Ledger, day: Instant, es: seq<Entry>, strict: bool)
    requires UniqueKeys(l)
    ensures Effect(l, Apply(l, day, es, strict).ledger, day, es, strict)
    decreases |es|, 1
  {
    if es != [] {
      var e, rest := es[0], es[1..];
      assert es == [e] + rest;
      ConsRelationHolds(e, rest, strict);
      if !Writes(e, strict) {
        ApplyFrame(l, day, rest, strict);
        assert Apply(l, day, es, strict) == Apply(l, day, rest, strict);
        SkipStep(l, Apply(l, day, rest, strict).ledger, day, e, rest, strict);
      } else {
        ApplyStep(l, day, e, rest, strict);
      }
    }
  }

  /** An entry the loop skips changes nothing the batch decides. */
  lemma SkipStep(l: Ledger, l': Ledger, day: Instant, e: Entry, rest: seq<Entry>, strict: bool)
    requires !Writes(e, strict)
    requires ConsRelation(e, rest, strict)
    requires Effect(l, l', day, rest, strict)
    ensures Effect(l, l', day, [e] + rest, strict)
  {
    assert forall id :: LastStatus([e] + rest, id, strict) == LastStatus(rest, id, strict);
    assert forall x :: Remarked(x, day, [e] + rest, strict) == Remarked(x, day, rest, strict);
  }

  /** The inductive step of `ApplyFrame` for an entry the loop writes. */
  lemma {:induction false} ApplyStep(l: Ledger, day: Instant, e: Entry, rest: seq<Entry>, strict: bool)
    requires UniqueKeys(l)
    requires Writes(e, strict)
    requires ConsRelation(e, rest, strict)
    ensures Effect(l, Apply(l, day, [e] + rest, strict).ledger, day, [e] + rest, strict)
    decreases |rest| + 1, 0
  {
    var es := [e] + rest;
    assert es[0] == e && es[1..] == rest;
    var u := Upsert(l, e.studentId.value, day, e.status);
    var l1 := u.ledger;
    ApplyFrame(l1, day, rest, strict);
    var l' := Apply(l1, day, rest, strict).ledger;
    assert l' == Apply(l, day, es, strict).ledger;
    StepKeepsOld(l, l1, l', day, e, rest, strict);
    StepAppendsNew(l, l1, l', day, e, rest, strict);
    StepCovers(l, l1, l', day, e, rest, strict);
    StepAppendsOnlyMissing(l, l1, l', day, e, rest, strict);
  }

  /** One record through one written entry followed by the rest of the batch. */
  lemma RemarkedStep(x: Record, day: Instant, e: Entry, rest: seq<Entry>, strict: bool)
    requires Writes(e, strict)
    requires ConsRelation(e, rest, strict)
    ensures var x1 := if KeyOf(x) == Key(e.studentId.value, day) then Record(e.studentId.value, day, e.status) else x;
            Remarked(x1, day, rest, strict) == Remarked(x, day, [e] + rest, strict)
  {
    assert LastStatus([e] + rest, x.studentId, strict) ==
           if LastStatus(rest, x.studentId, strict).Some? then LastStatus(rest, x.studentId, strict)
           else if e.studentId.value == x.studentId then Some(e.status)
           else None;
  }

  lemma StepKeepsOld(l: Ledger, l1: Ledger, l': Ledger, day: Instant, e: Entry, rest: seq<Entry>, strict: bool)
    requires UniqueKeys(l)
    requires Writes(e, strict)
    requires ConsRelation(e, rest, strict)
    requires l1 == Upsert(l, e.studentId.value, day, e.status).ledger
    requires KeepsOld(l1, l', day, rest, strict)
    ensures KeepsOld(l, l', day, [e] + rest, strict)
  {
    forall i | 0 <= i < |l| ensures l'[i] == Remarked(l[i], day, [e] + rest, strict) {
      RemarkedStep(l[i], day, e, rest, strict);
    }
  }

  lemma StepAppendsNew(l: Ledger, l1: Ledger, l': Ledger, day: Instant, e: Entry, rest: seq<Entry>, strict: bool)
    requires UniqueKeys(l)
    requires Writes(e, strict)
    requires ConsRelation(e, rest, strict)
    requires l1 == Upsert(l, e.studentId.value, day, e.status).ledger
    requires KeepsOld(l1, l', day, rest, strict)
    requires AppendsNew(l1, l', day, rest, strict)
    ensures AppendsNew(l, l', day, [e] + rest, strict)
  {
    var es := [e] + rest;
    forall i | |l| <= i < |l'|
      ensures l'[i].date == day && LastStatus(es, l'[i].studentId, strict) == Some(l'[i].status)
              && FindKey(l, KeyOf(l'[i])).None?
    {
      if i < |l1| {
        assert l'[i] == Remarked(l1[i], day, rest, strict);
        assert LastStatus(es, e.studentId.value, strict).Some?;
      } else {
        assert FindKey(l1, KeyOf(l'[i])).None?;
        assert forall j :: 0 <= j < |l| ==> KeyOf(l1[j]) == KeyOf(l[j]);
        assert LastStatus(rest, l'[i].studentId, strict).Some?;
      }
    }
  }

  lemma StepCovers(l: Ledger, l1: Ledger, l': Ledger, day: Instant, e: Entry, rest: seq<Entry>, strict: bool)
    requires Writes(e, strict)
    requires ConsRelation(e, rest, strict)
    requires l1 == Upsert(l, e.studentId.value, day, e.status).ledger
    requires KeepsOld(l1, l', day, rest, strict)
    requires CoversBatch(l', day, rest, strict)
    ensures CoversBatch(l', day, [e] + rest, strict)
  {
    var es := [e] + rest;
    forall id | LastStatus(es, id, strict).Some? ensures FindKey(l', Key(id, day)).Some? {
      if LastStatus(rest, id, strict).None? {
        var doc := Record(e.studentId.value, day, e.status);
        var p :| 0 <= p < |l1| && l1[p] == doc;
        assert KeyOf(l'[p]) == KeyOf(Remarked(l1[p], day, rest, strict));
      }
    }
  }

  lemma StepAppendsOnlyMissing(l: Ledger, l1: Ledger, l': Ledger, day: Instant, e: Entry, rest: seq<Entry>, strict: bool)
    requires UniqueKeys(l)
    requires Writes(e, strict)
    requires ConsRelation(e, rest, strict)
    requires l1 == Upsert(l, e.studentId.value, day, e.status).ledger
    requires AppendsOnlyMissing(l1, l', day, rest, strict)
    ensures AppendsOnlyMissing(l, l', day, [e] + rest, strict)
  {
    var es := [e] + rest;
    if CoversBatch(l, day, es, strict) {
      assert LastStatus(es, e.studentId.value, strict).Some?;
      assert FindKey(l, Key(e.studentId.value, day)).Some?;
      assert |l1| == |l|;
      forall id | LastStatus(rest, id, strict).Some? ensures FindKey(l1, Key(id, day)).Some? {
        assert LastStatus(es, id, strict).Some?;
        var p := FindKey(l, Key(id, day)).value;
        assert KeyOf(l1[p]) == KeyOf(l[p]);
      }
    }
  }

  // ---- Properties of POST /mark ----

  /** The entries the loop writes, in request order. */
  function Selected(es: seq<Entry>, strict: bool): (r: seq<Entry>)
    ensures forall e :: e in r <==> e in es && Writes(e, strict)
    ensures forall k :: 0 <= k < |r| ==> Writes(r[k], strict)
  {
    if es == [] then []
    else (if Writes(es[0], strict) then [es[0]] else []) + Selected(es[1..], strict)
  }

  /** The document written for a selected entry. */
  function DocOf(e: Entry, day: Instant): Record
    requires e.studentId.Some?
  {
    Record(e.studentId.value, day, e.status)
  }

  /** Skipped entries have no effect at all: the loop behaves as if the
      request had held only the entries it writes, and it returns one
      document per written entry, in order. */
  lemma ApplySkips(l: Ledger, day: Instant, es: seq<Entry>, strict: bool)
    ensures Apply(l, day, es, strict) == Apply(l, day, Selected(es, strict), strict)
    ensures var sel := Selected(es, strict);
            var docs := Apply(l, day, es, strict).docs;
            |docs| == |sel| && forall k :: 0 <= k < |sel| ==> docs[k] == DocOf(sel[k], day)
  {
    SkipsIgnored(l, day, es, strict);
    WrittenDocs(l, day, Selected(es, strict), strict);
  }

  /** The loop over a request equals the loop over its written entries. */
  lemma {:induction false} SkipsIgnored(l: Ledger, day: Instant, es: seq<Entry>, strict: bool)
    ensures Apply(l, day, es, strict) == Apply(l, day, Selected(es, strict), strict)
    decreases |es|
  {
    if es != [] {
      var sel := Selected(es, strict);
      if Writes(es[0], strict) {
        assert sel == [es[0]] + Selected(es[1..], strict);
        assert sel[0] == es[0] && sel[1..] == Selected(es[1..], strict);
        var u := Upsert(l, es[0].studentId.value, day, es[0].status);
        SkipsIgnored(u.ledger, day, es[1..], strict);
      } else {
        assert sel == Selected(es[1..], strict);
        SkipsIgnored(l, day, es[1..], strict);
      }
    }
  }

  /** When every entry is written, the documents are those of the entries,
      in order. */
  lemma {:induction false} WrittenDocs(l: Ledger, day: Instant, es: seq<Entry>, strict: bool)
    requires forall k :: 0 <= k < |es| ==> Writes(es[k], strict)
    ensures var docs := Apply(l, day, es, strict).docs;
            |docs| == |es| && forall k :: 0 <= k < |es| ==> Writes(es[k], strict) && docs[k] == DocOf(es[k], day)
    decreases |es|
  {
    if es != [] {
      var u := Upsert(l, es[0].studentId.value, day, es[0].status);
      assert forall k :: 0 <= k < |es[1..]| ==> es[1..][k] == es[k + 1];
      WrittenDocs(u.ledger, day, es[1..], strict);
    }
  }

  /** A request without date or records array is rejected and writes
      nothing; the returned ledger is the input one only on success. */
  lemma MarkValidation(l: Ledger, date: Option<Instant>, records: Option<seq<Entry>>)
    ensures date.None? || records.None? ==> Mark(l, date, records) == Err(BadRequest(DATE_AND_RECORDS_REQUIRED))
    ensures date.None? || records.None? ==> MarkAsWritten(l, date, records) == Err(BadRequest(DATE_AND_RECORDS_REQUIRED))
  {
  }

  /** Two dates on the same calendar day mark the same key, as written and
      corrected alike. */
  lemma MarkSameDay(l: Ledger, a: Instant, b: Instant, records: Option<seq<Entry>>, strict: bool)
    requires a.day == b.day
    ensures MarkWith(l, Some(a), records, strict) == MarkWith(l, Some(b), records, strict)
  {
  }

  /** After a mark, each key of the batch has exactly one record, holding
      the last status the batch gave that student. As written, that status
      may be any non-empty string. */
  lemma MarkLastWins(l: Ledger, date: Instant, es: seq<Entry>, id: StudentId, status: string, strict: bool)
    requires UniqueKeys(l)
    requires LastStatus(es, id, strict) == Some(status)
    ensures var l' := MarkWith(l, Some(date), Some(es), strict).value.ledger;
            var k := Key(id, StartOfDay(date));
            && UniqueKeys(l')
            && (exists i :: 0 <= i < |l'| && KeyOf(l'[i]) == k)
            && (forall i :: 0 <= i < |l'| && KeyOf(l'[i]) == k ==> l'[i] == Record(id, StartOfDay(date), status))
  {
    var day := StartOfDay(date);
    ApplyFrame(l, day, es, strict);
    var l' := Apply(l, day, es, strict).ledger;
    var p := FindKey(l', Key(id, day)).value;
    forall i | 0 <= i < |l'| && KeyOf(l'[i]) == Key(id, day)
      ensures l'[i] == Record(id, day, status)
    {
      if i < |l| {
        assert l'[i] == Remarked(l[i], day, es, strict);
      }
    }
  }

  /** Mark touches only the keys of its batch: a record whose key the batch
      does not write is in the ledger after the mark exactly when it was in
      it before. As written, an entry with any non-empty status writes its
      key, so the batch's keys are taken with the same strictness. */
  lemma MarkFrame(l: Ledger, date: Instant, es: seq<Entry>, x: Record, strict: bool)
    requires UniqueKeys(l)
    requires !InBatch(x, StartOfDay(date), es, strict)
    ensures x in MarkWith(l, Some(date), Some(es), strict).value.ledger <==> x in l
  {
    var day := StartOfDay(date);
    ApplyFrame(l, day, es, strict);
    var l' := Apply(l, day, es, strict).ledger;
    if x in l {
      var i :| 0 <= i < |l| && l[i] == x;
      assert l'[i] == x;
    }
    if x in l' {
      var i :| 0 <= i < |l'| && l'[i] == x;
      if i < |l| {
        assert l'[i] == Remarked(l[i], day, es, strict);
        assert l[i] == x;
      }
    }
  }

  /** Re-running the same batch leaves the ledger as the first run left it. */
  lemma MarkIdempotent(l: Ledger, day: Instant, es: seq<Entry>, strict: bool)
    requires UniqueKeys(l)
    ensures var l1 := Apply(l, day, es, strict).ledger;
            Apply(l1, day, es, strict).ledger == l1
  {
    ApplyFrame(l, day, es, strict);
    var l1 := Apply(l, day, es, strict).ledger;
    ApplyFrame(l1, day, es, strict);
    var l2 := Apply(l1, day, es, strict).ledger;
    assert |l2| == |l1|;
    forall i | 0 <= i < |l1| ensures l2[i] == l1[i] {
      assert l2[i] == Remarked(l1[i], day, es, strict);
      if i < |l| {
        assert l1[i] == Remarked(l[i], day, es, strict);
      }
    }
  }

  /** The corrected mark keeps the ledger well formed: unique keys, statuses
      in the enum, normalised dates. */
  lemma MarkKeepsWellFormed(l: Ledger, date: Instant, es: seq<Entry>)
    requires LedgerWellFormed(l)
    ensures LedgerWellFormed(Mark(l, Some(date), Some(es)).value.ledger)
  {
    var day := StartOfDay(date);
    ApplyFrame(l, day, es, true);
    var l' := Apply(l, day, es, true).ledger;
    forall i | 0 <= i < |l'| ensures InEnum(l'[i].status) && l'[i].date == StartOfDay(l'[i].date) {
      if i < |l| {
        assert l'[i] == Remarked(l[i], day, es, true);
        if InBatch(l[i], day, es, true) {
          LastStatusWritten(es, l[i].studentId, true);
        }
      } else {
        LastStatusWritten(es, l'[i].studentId, true);
      }
    }
  }

  /** Mark never consults the student collection: it stores a reference to
      a student that does not exist. */
  lemma MarkAcceptsDanglingReference(date: Instant)
    ensures var m := Mark([], Some(date), Some([Entry(Some(7), PRESENT)]));
            m.Ok? && m.value.ledger == [Record(7, StartOfDay(date), PRESENT)]
            && Find([], 7).None?
  {
    var es := [Entry(Some(7), PRESENT)];
    var day := StartOfDay(date);
    assert es[1..] == [];
    var u := Upsert([], 7, day, PRESENT);
    assert u.ledger == [Record(7, day, PRESENT)];
    assert Apply([], day, es, true) == Marked(u.ledger, [u.doc]);
  }

  /** As written, mark stores a status outside the schema's enum. */
  lemma MarkAsWrittenStoresUnknownStatus(date: Instant)
    ensures var m := MarkAsWritten([], Some(date), Some([Entry(Some(1), "late")]));
            m.Ok? && m.value.ledger == [Record(1, StartOfDay(date), "late")]
            && !StatusesInEnum(m.value.ledger)
  {
    var es := [Entry(Some(1), "late")];
    var day := StartOfDay(date);
    assert es[1..] == [];
    var u := Upsert([], 1, day, "late");
    assert u.ledger == [Record(1, day, "late")];
    assert Apply([], day, es, false) == Marked(u.ledger, [u.doc]);
  }

  // ---- GET /daily ----

  /** A record of the day with its student resolved by `populate`; the
      student is `None` when the reference does not resolve. */
  datatype DailyRow = DailyRow(record: Record, student: Option<Student>)

  /** The records shown by a run of daily rows, in order. */
  function RecordsOf(rows: seq<DailyRow>): (r: Ledger)
    ensures |r| == |rows|
    ensures forall k :: 0 <= k < |rows| ==> r[k] == rows[k].record
  {
    seq(|rows|, k requires 0 <= k < |rows| => rows[k].record)
  }

  /** GET /daily: `find({ date: day }).populate("studentId")`. */
  function Daily(l: Ledger, dir: Directory, date: Option<Instant>): (r: Result<seq<DailyRow>>)
    ensures r.Err? <==> date.None?
    ensures r.Err? ==> r.error == BadRequest(DATE_REQUIRED)
    ensures r.Ok? ==> forall x :: (exists k :: 0 <= k < |r.value| && r.value[k].record == x)
                                  <==> x in l && x.date == StartOfDay(date.value)
    ensures r.Ok? ==> Copies(RecordsOf(r.value), l, (x: Record) => x.date == StartOfDay(date.value))
    ensures r.Ok? ==> forall k :: 0 <= k < |r.value| ==>
                        match r.value[k].student
                        case Some(s) => s in dir && s.id == r.value[k].record.studentId
                        case None => !HasId(dir, r.value[k].record.studentId)
  {
    if date.None? then Err(BadRequest(DATE_REQUIRED))
    else
      var recs := OnDate(l, StartOfDay(date.value));
      var rows := seq(|recs|, k requires 0 <= k < |recs| => DailyRow(recs[k], Find(dir, recs[k].studentId)));
      forall x | x in recs ensures exists k :: 0 <= k < |rows| && rows[k].record == x {
        var k :| 0 <= k < |recs| && recs[k] == x;
        assert rows[k].record == x;
      }
      assert RecordsOf(rows) == recs;
      Ok(rows)
  }

  /** The daily report right after a mark shows, for every student of the
      batch, the record with the last status given. */
  lemma DailyAfterMark(l: Ledger, dir: Directory, date: Instant, query: Instant, es: seq<Entry>,
                        id: StudentId, status: string, strict: bool)
    requires UniqueKeys(l)
    requires query.day == date.day
    requires LastStatus(es, id, strict) == Some(status)
    ensures var rows := Daily(MarkWith(l, Some(date), Some(es), strict).value.ledger, dir, Some(query)).value;
            exists k :: 0 <= k < |rows| && rows[k].record == Record(id, StartOfDay(date), status)
  {
    MarkLastWins(l, date, es, id, status, strict);
    var l' := MarkWith(l, Some(date), Some(es), strict).value.ledger;
    var i :| 0 <= i < |l'| && KeyOf(l'[i]) == Key(id, StartOfDay(date));
    assert l'[i] == Record(id, StartOfDay(date), status);
    assert l'[i] in l' && StartOfDay(query) == StartOfDay(date);
    var rows := Daily(l', dir, Some(query)).value;
    var x := l'[i];
    assert x in l' && x.date == StartOfDay(query);
    assert exists k :: 0 <= k < |rows| && rows[k].record == x;
  }
}
