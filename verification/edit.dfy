/**
 * The instance settings page: it loads the course and, when an instance id
 * is given, the matching Paystack instance; a cancelled form returns to the
 * course's enrolment methods, a valid submission updates the instance (or
 * adds a new one), and anything else shows the form again.
 */
module Edit {
  import opened Wrappers
  import opened Records
  import opened EditForm

  /** The values the settings form submits; `cost` is the text as typed. */
  datatype FormData = FormData(
    status: int,
    name: string,
    cost: string,
    currency: string,
    roleId: int,
    customInt3: int,
    enrolPeriod: int,
    enrolStartDate: int,
    enrolEndDate: int)

  /** What the form reports for this request. */
  datatype Submission = Cancelled | Submitted(form: FormData) | NotSubmitted

  /** The nine settings the form edits, with the cost as a number. */
  datatype Settings = Settings(
    status: int,
    name: string,
    cost: real,
    currency: string,
    roleId: int,
    enrolPeriod: int,
    customInt3: int,
    enrolStartDate: int,
    enrolEndDate: int)

  /** The database writes the page makes. */
  datatype Write =
    | UpdateInstance(instance: Instance)
    | MarkContextDirty(courseId: int)      // the course context's caches are invalidated
    | AddInstance(courseId: int, fields: Settings)

  datatype Outcome =
    | CourseMissing                        // no course with the requested id
    | InstanceMissing                      // no single row matches the requested instance
    | Redirected                           // back to the course's enrolment methods
    | FormShown

  datatype Response = Response(outcome: Outcome, writes: seq<Write>)

  /**
   * The site: its courses, the rows of the `enrol` table, whether the
   * Paystack plugin is enabled, the clock and the language's decimal separator.
   */
  datatype Site = Site(courses: map<int, Course>, rows: seq<Instance>, enabled: bool, now: int, decsep: char)

  // Loading the instance.

  /** The row matches the record the page asks for: same course, the Paystack plugin, the same id. */
  predicate Matches(i: Instance, courseId: int, id: int) {
    i.courseId == courseId && i.enrol == "paystack" && i.id == id
  }

  /** The rows matching the request, in table order. */
  function Matching(rows: seq<Instance>, courseId: int, id: int): (m: seq<Instance>)
    ensures forall i :: i in m <==> i in rows && Matches(i, courseId, id)
    ensures |m| <= |rows|
  {
    if |rows| == 0 then []
    else
      var rest := Matching(rows[1..], courseId, id);
      assert forall i :: i in rows <==> i == rows[0] || i in rows[1..];
      if Matches(rows[0], courseId, id) then [rows[0]] + rest else rest
  }

  /** A record fetched with MUST_EXIST: exactly one row must match. */
  function LoadInstance(rows: seq<Instance>, courseId: int, id: int): (r: Option<Instance>)
    ensures r.Some? ==> r.value in rows && Matches(r.value, courseId, id)
  {
    var m := Matching(rows, courseId, id);
    if |m| == 1 then Some(m[0]) else None
  }

  // Saving the form.

  function SettingsOf(f: FormData, cost: real): Settings {
    Settings(f.status, f.name, cost, f.currency, f.roleId, f.enrolPeriod, f.customInt3, f.enrolStartDate, f.enrolEndDate)
  }

  /** The settings an instance holds. */
  function InstanceSettings(i: Instance): Settings {
    Settings(i.status, i.name, i.cost, i.currency, i.roleId, i.enrolPeriod, i.customInt3, i.enrolStartDate, i.enrolEndDate)
  }

  /**
   * The instance after an update: it holds the submitted settings and the
   * modification time; its id, course and plugin stay as they were.
   */
  function Updated(i: Instance, f: FormData, cost: real, now: int): (r: Instance)
    ensures InstanceSettings(r) == SettingsOf(f, cost)
    ensures r.timeModified == now
    ensures r.id == i.id && r.courseId == i.courseId && r.enrol == i.enrol
  {
    i.(status := f.status, name := f.name, cost := cost, currency := f.currency, roleId := f.roleId,
       customInt3 := f.customInt3, enrolPeriod := f.enrolPeriod, enrolStartDate := f.enrolStartDate,
       enrolEndDate := f.enrolEndDate, timeModified := now)
  }

  /** The form is returned as data only when it passes validation. */
  predicate Valid(f: FormData, decsep: char) {
    Validation(map[], Dates(f.enrolStartDate, f.enrolEndDate), f.cost, decsep) == map[]
  }

  /** Saving a valid form: update the loaded instance, or add one when there is none. */
  function Save(site: Site, course: Course, instance: Option<Instance>, f: FormData, unformat: string -> real): seq<Write> {
    var cost := unformat(f.cost);
    if instance.Some? && instance.value.id != 0 then
      var reset := instance.value.status != f.status;
      [UpdateInstance(Updated(instance.value, f, cost, site.now))] + (if reset then [MarkContextDirty(course.id)] else [])
    else
      [AddInstance(course.id, SettingsOf(f, cost))]
  }

  /**
   * The whole page for course `courseId` and instance `instanceId` (0 for a
   * new instance); `unformat` reads a typed cost as a number.
   */
  function Edit(site: Site, courseId: int, instanceId: int, submission: Submission, unformat: string -> real): Response {
    if courseId !in site.courses then Response(CourseMissing, [])
    else
      var course := site.courses[courseId];
      if !site.enabled then Response(Redirected, [])
      else
        var instance := if instanceId != 0 then LoadInstance(site.rows, course.id, instanceId) else None;
        if instanceId != 0 && instance.None? then Response(InstanceMissing, [])
        else
          match submission
          case Cancelled => Response(Redirected, [])
          case NotSubmitted => Response(FormShown, [])
          case Submitted(f) =>
            if Valid(f, site.decsep) then Response(Redirected, Save(site, course, instance, f, unformat))
            else Response(FormShown, [])
  }

  /** How many rows of the `enrol` table the writes create or change. */
  function RecordWrites(writes: seq<Write>): nat {
    if |writes| == 0 then 0
    else (if writes[0].MarkContextDirty? then 0 else 1) + RecordWrites(writes[1..])
  }

  // Properties of the page.

  /** Cancelling returns to the enrolment methods, or stops earlier, and never writes. */
  lemma CancelWritesNothing(site: Site, courseId: int, instanceId: int, unformat: string -> real)
    ensures var r := Edit(site, courseId, instanceId, Cancelled, unformat);
      r.writes == [] && r.outcome != FormShown
  {
  }

  /**
   * Something is written only for an existing course, with the plugin
   * enabled, when a valid form was submitted; the page then redirects.
   */
  lemma WritesOnlyWhenSaved(site: Site, courseId: int, instanceId: int, submission: Submission, unformat: string -> real)
    requires Edit(site, courseId, instanceId, submission, unformat).writes != []
    ensures courseId in site.courses && site.enabled
    ensures submission.Submitted? && Valid(submission.form, site.decsep)
    ensures Edit(site, courseId, instanceId, submission, unformat).outcome == Redirected
  {
  }

  /**
   * A given instance id is looked up among the rows of this course that
   * belong to the Paystack plugin; the page stops unless exactly one matches.
   */
  lemma LoadRule(site: Site, courseId: int, instanceId: int, submission: Submission, unformat: string -> real)
    requires courseId in site.courses && site.enabled && instanceId != 0
    ensures var course := site.courses[courseId];
      Edit(site, courseId, instanceId, submission, unformat).outcome == InstanceMissing
      <==> |Matching(site.rows, course.id, instanceId)| != 1
  {
  }

  /**
   * Saving over an existing instance writes it back with the submitted
   * settings, the current time and its own id, course and plugin, and marks
   * the course context dirty exactly when the status changed.
   */
  lemma UpdateRule(site: Site, courseId: int, instanceId: int, f: FormData, unformat: string -> real, i: Instance)
    requires courseId in site.courses && site.enabled && instanceId != 0
    requires LoadInstance(site.rows, site.courses[courseId].id, instanceId) == Some(i)
    requires Valid(f, site.decsep)
    ensures var w := Edit(site, courseId, instanceId, Submitted(f), unformat).writes;
      var course := site.courses[courseId];
      |w| >= 1 && w[0].UpdateInstance? && i in site.rows
      && w[0].instance.id == instanceId && w[0].instance.courseId == course.id && w[0].instance.enrol == "paystack"
      && InstanceSettings(w[0].instance) == SettingsOf(f, unformat(f.cost))
      && w[0].instance.timeModified == site.now
      && (MarkContextDirty(course.id) in w <==> i.status != f.status)
      && |w| == (if i.status != f.status then 2 else 1)
  {
    var course := site.courses[courseId];
    var w := Edit(site, courseId, instanceId, Submitted(f), unformat).writes;
    assert w == Save(site, course, Some(i), f, unformat);
    assert w[0] == UpdateInstance(Updated(i, f, unformat(f.cost), site.now));
  }

  /** Saving the same form again changes nothing but the modification time, and so is never a status change. */
  lemma UpdateIdempotent(i: Instance, f: FormData, cost: real, earlier: int, now: int)
    ensures Updated(Updated(i, f, cost, earlier), f, cost, now) == Updated(i, f, cost, now)
    ensures Updated(i, f, cost, earlier).status == f.status
  {
  }

  /** With no instance id, a valid form adds one instance to the course with exactly the nine submitted settings. */
  lemma AddRule(site: Site, courseId: int, f: FormData, unformat: string -> real)
    requires courseId in site.courses && site.enabled && Valid(f, site.decsep)
    ensures Edit(site, courseId, 0, Submitted(f), unformat)
         == Response(Redirected, [AddInstance(site.courses[courseId].id, SettingsOf(f, unformat(f.cost)))])
  {
  }

  /**
   * Every settings record the page writes passed validation: its end date
   * is unset or not before its start date, and the typed cost was a number.
   */
  lemma StoredSettingsValid(site: Site, courseId: int, instanceId: int, submission: Submission, unformat: string -> real)
    ensures forall w :: w in Edit(site, courseId, instanceId, submission, unformat).writes ==>
      (w.UpdateInstance? ==> !EndBeforeStart(Dates(w.instance.enrolStartDate, w.instance.enrolEndDate)))
      && (w.AddInstance? ==> !EndBeforeStart(Dates(w.fields.enrolStartDate, w.fields.enrolEndDate)))
    ensures Edit(site, courseId, instanceId, submission, unformat).writes != [] ==>
      CostReadable(submission.form.cost, site.decsep)
  {
    var r := Edit(site, courseId, instanceId, submission, unformat);
    if r.writes != [] {
      var f := submission.form;
      ValidationPasses(Dates(f.enrolStartDate, f.enrolEndDate), f.cost, site.decsep);
    }
  }

  lemma {:induction false} RecordWritesAppend(a: seq<Write>, b: seq<Write>)
    ensures RecordWrites(a + b) == RecordWrites(a) + RecordWrites(b)
  {
    if |a| == 0 {
      assert a + b == b;
    } else {
      assert (a + b)[1..] == a[1..] + b;
      RecordWritesAppend(a[1..], b);
    }
  }

  /** One request creates or changes at most one instance. */
  lemma AtMostOneRecord(site: Site, courseId: int, instanceId: int, submission: Submission, unformat: string -> real)
    ensures RecordWrites(Edit(site, courseId, instanceId, submission, unformat).writes) <= 1
  {
    var w := Edit(site, courseId, instanceId, submission, unformat).writes;
    if |w| >= 2 {
      assert w == [w[0]] + [MarkContextDirty(w[1].courseId)];
      RecordWritesAppend([w[0]], [w[1]]);
    }
  }
}
