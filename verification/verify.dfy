/**
 * The payment callback (verify.php): the page Paystack's inline checkout
 * posts back to. It checks the request, copies the posted fields into a
 * transaction record, reads the user, course and enrolment instance named
 * by the `custom` field, asks the gateway to verify the reference, and
 * then either halts with a notice, redirects a user who is already
 * enrolled, or records the transaction and enrols the payer.
 *
 * Host services become inputs: the site and database state is a `Host`
 * value, the gateway's verify answer a `Verification`, the plugin settings
 * a `Config`. Everything the page does to the outside world is returned as
 * a list of effects beside the terminal outcome.
 */
module Verify {
  import opened Wrappers
  import opened PhpStrings
  import opened PhpNumeric
  import opened PhpObject
  import opened Records
  import opened Util

  // Inputs.

  /** A posted value: a string, or an array (a `name[]` field) with the number of entries kept. */
  datatype Param = Scalar(text: string) | Array(size: nat)

  /** The request as PHP hands it over: the `$_POST` entries in order and the number of `$_GET` entries. */
  datatype Request = Request(post: seq<(string, Param)>, getCount: nat)

  /**
   * What verify_transaction() gives back: the decoded JSON answer (`amount`
   * in minor units, kobo), a connection error (curl_errno() set), or a body
   * that does not decode to a JSON object or array.
   */
  datatype Verification =
    | Answer(
        status: bool,
        message: string,
        amount: int,
        gatewayResponse: string,
        paymentStatus: string)
    | ConnectionFailed
    | NotJson

  /** The plugin settings the callback reads: enabled, default cost (after the float cast) and notification switches. */
  datatype Config = Config(enabled: bool, defaultCost: real, mailStudents: string, mailAdmins: string)

  /**
   * The site as the callback sees it: the user ids, course and `enrol` rows
   * by id, the site name, the primary and all administrators, the logged-in
   * user, each user's enrolment window per course, and the clock.
   */
  datatype Host = Host(
    users: set<int>,
    courses: map<int, Course>,
    instances: map<int, Instance>,
    siteName: string,
    primaryAdmin: int,
    admins: seq<int>,
    sessionUser: int,
    enrolments: map<(int, int), Window>,
    now: int)

  // Outputs.

  /** The database tables a missing row can come from. */
  datatype Table = UserTable | CourseTable | EnrolTable

  /** Why the request ended in an exception. */
  datatype Reason =
    | Disabled                 // the plugin is switched off
    | MalformedRequest         // no POST data, or a query string
    | MissingTrxref            // no `paystack-trxref` field
    | EmptyTrxref              // `paystack-trxref` is empty
    | BadKey(key: string)      // a field name that ALPHANUMEXT cleaning would change
    | ArrayValue(key: string)  // an array-valued field
    | MissingCustom            // `custom` is missing or empty
    | InvalidCustom            // `custom` has fewer than three '-'-separated parts
    | MissingRecord(table: Table)
    | MissingReference         // no `reference` field: null reaches verify_transaction(string)
    | GatewayUnreachable       // the verify request failed at the connection level
    | GatewayReplyInvalid      // the reply is not JSON, so verify_transaction() cannot return an array

  datatype Page = Thanks(course: string) | Sorry(course: string)

  /** How the page ends. */
  datatype Outcome =
    | Rejected(reason: Reason, status: int) // exception, handled with this HTTP status
    | Halted(notice: string)                // notice() ends the page
    | AlreadyEnrolled(course: string)       // redirect with the thanks message, nothing recorded
    | Committed(page: Page)                 // transaction recorded and enrolment made

  /** What the page does to the outside world, in order. */
  datatype Effect =
    | AdminMessage(message: Message)
    | LogSuccess(reference: string)
    | InsertTransaction(record: Props)
    | EnrolUser(instanceId: int, userId: int, roleId: int, timeStart: int, timeEnd: int)
    | NotifyStudent(userId: int)
    | NotifyAdmin(adminId: int, userId: int)

  datatype Response = Response(outcome: Outcome, effects: seq<Effect>)

  /** PHP arrays never hold a key twice, so neither does `$_POST`. */
  predicate DistinctKeys(post: seq<(string, Param)>) {
    forall i, j :: 0 <= i < j < |post| ==> post[i].0 != post[j].0
  }

  // Request checks.

  const TrxrefKey: string := "paystack-trxref"

  /** The first entry posted under `key`. */
  function Lookup(post: seq<(string, Param)>, key: string): (r: Option<Param>)
    ensures r.None? <==> forall i :: 0 <= i < |post| ==> post[i].0 != key
    ensures r.Some? ==> exists i :: 0 <= i < |post| && post[i] == (key, r.value)
                                   && forall j :: 0 <= j < i ==> post[j].0 != key
  {
    if |post| == 0 then None
    else if post[0].0 == key then Some(post[0].1)
    else
      var r := Lookup(post[1..], key);
      assert forall i :: 1 <= i < |post| ==> post[i] == post[1..][i - 1];
      r
  }

  /** The status code set before the exception: only the first two checks set one. */
  function PresetCode(reason: Reason): int {
    match reason
    case Disabled => 503
    case MalformedRequest => 400
    case _ => 200
  }

  /**
   * What the page hands to set_exception_handler(): verify.php:42 passes the
   * factory `util::get_exception_handler` itself, not the closure it returns.
   */
  datatype Registered = Factory | Closure

  const AsRegistered: Registered := Factory

  /**
   * The status after an uncaught exception. Calling the factory only builds
   * the closure and throws it away, so the status set before the exception
   * stands; the closure would have turned 200 into 500.
   */
  function HandledStatus(registered: Registered, preset: int): int {
    match registered
    case Factory => preset
    case Closure => HandlerStatus(preset)
  }

  /** The HTTP status the page ends with when `reason` is thrown, as the page registers its handler. */
  function ResponseCode(reason: Reason): (code: int)
    ensures reason == Disabled ==> code == 503
    ensures reason == MalformedRequest ==> code == 400
    ensures reason != Disabled && reason != MalformedRequest ==> code == 200
  {
    HandledStatus(AsRegistered, PresetCode(reason))
  }

  /** The status the closure was written to produce: an exception never leaves 200. */
  function IntendedResponseCode(reason: Reason): (code: int)
    ensures code != 200
    ensures code == 503 || code == 400 || code == 500
    ensures ResponseCode(reason) != 200 ==> code == ResponseCode(reason)
    ensures ResponseCode(reason) == 200 ==> code == 500
  {
    HandledStatus(Closure, PresetCode(reason))
  }

  /**
   * The checks before the fields are copied: plugin enabled, POST data
   * present and no query string, and a non-empty `paystack-trxref`.
   * required_param() on an array field returns the cleaned array, so an
   * array is empty only when it keeps no entry.
   */
  function Admit(cfg: Config, req: Request): (r: Option<Reason>)
    ensures r.Some? ==> r.value in {Disabled, MalformedRequest, MissingTrxref, EmptyTrxref}
    ensures r.None? <==> cfg.enabled && |req.post| > 0 && req.getCount == 0 && TrxrefGiven(req.post)
    ensures r == Some(MissingTrxref) <==>
      cfg.enabled && |req.post| > 0 && req.getCount == 0 && forall i :: 0 <= i < |req.post| ==> req.post[i].0 != TrxrefKey
  {
    TrxrefGivenLookup(req.post);
    if !cfg.enabled then Some(Disabled)
    else if |req.post| == 0 || req.getCount > 0 then Some(MalformedRequest)
    else
      match Lookup(req.post, TrxrefKey)
      case None => Some(MissingTrxref)
      case Some(Scalar(t)) => if PhpEmpty(t) then Some(EmptyTrxref) else None
      case Some(Array(n)) => if n == 0 then Some(EmptyTrxref) else None
  }

  /**
   * The first `paystack-trxref` entry is a non-empty string or an array that
   * keeps an entry.
   */
  predicate TrxrefGiven(post: seq<(string, Param)>) {
    exists i :: 0 <= i < |post| && post[i].0 == TrxrefKey
      && (forall j :: 0 <= j < i ==> post[j].0 != TrxrefKey)
      && Filled(post[i].1)
  }

  /** A value required_param() accepts: a non-empty string, or an array that keeps an entry. */
  predicate Filled(v: Param) {
    match v
    case Scalar(t) => !PhpEmpty(t)
    case Array(n) => n > 0
  }

  /** The first `paystack-trxref` entry is the one Lookup finds. */
  lemma TrxrefGivenLookup(post: seq<(string, Param)>)
    ensures TrxrefGiven(post) <==> Lookup(post, TrxrefKey).Some? && Filled(Lookup(post, TrxrefKey).value)
  {
    var r := Lookup(post, TrxrefKey);
    if TrxrefGiven(post) {
      var i :| 0 <= i < |post| && post[i].0 == TrxrefKey
        && (forall j :: 0 <= j < i ==> post[j].0 != TrxrefKey) && Filled(post[i].1);
      var k :| 0 <= k < |post| && post[k] == (TrxrefKey, r.value) && forall j :: 0 <= j < k ==> post[j].0 != TrxrefKey;
      assert i == k;
    }
  }

  // Field names.

  /** The characters PARAM_ALPHANUMEXT keeps. */
  predicate IsLetter(c: char) {
    'a' <= c <= 'z' || 'A' <= c <= 'Z'
  }

  predicate IsAlnumExt(c: char) {
    IsLetter(c) || '0' <= c <= '9' || c == '_' || c == '-'
  }

  predicate AllAlnumExt(s: string) {
    forall i :: 0 <= i < |s| ==> IsAlnumExt(s[i])
  }

  /** clean_param(s, PARAM_ALPHANUMEXT): every other character removed. */
  function CleanAlnumExt(s: string): (r: string)
    ensures |r| <= |s| && AllAlnumExt(r)
  {
    if |s| == 0 then ""
    else (if IsAlnumExt(s[0]) then [s[0]] else "") + CleanAlnumExt(s[1..])
  }

  /** Cleaning leaves a name unchanged exactly when every character is allowed. */
  lemma {:induction false} CleanAlnumExtFixed(s: string)
    ensures CleanAlnumExt(s) == s <==> AllAlnumExt(s)
  {
    if |s| > 0 {
      CleanAlnumExtFixed(s[1..]);
      if AllAlnumExt(s) {
        assert AllAlnumExt(s[1..]) by {
          assert forall i :: 0 <= i < |s| - 1 ==> s[1..][i] == s[i + 1];
        }
        assert s == [s[0]] + s[1..];
      } else if CleanAlnumExt(s) == s {
        assert false;
      }
    }
  }

  /**
   * A name PHP turns into an integer array key: "0", or an optional '-'
   * and digits without a leading zero, within the 64-bit range ("-0" stays
   * a string).
   */
  predicate IsIntegerKey(k: string) {
    var negative := |k| > 0 && k[0] == '-';
    var digits := if negative then k[1..] else k;
    |digits| > 0 && AllDigits(digits)
    && (if digits[0] == '0' then digits == "0" && !negative else true)
    && DigitsValue(digits) <= (if negative then MaxLong + 1 else MaxLong)
  }

  /**
   * The field-name check: `$key !== clean_param($key, PARAM_ALPHANUMEXT)`.
   * An integer key is never identical to the string clean_param() returns.
   */
  predicate KeyAccepted(k: string) {
    !IsIntegerKey(k) && CleanAlnumExt(k) == k
  }

  /** A posted entry the copying loop lets through. */
  predicate Admissible(entry: (string, Param)) {
    KeyAccepted(entry.0) && entry.1.Scalar?
  }

  /** The exception the copying loop throws on an entry: the name check comes first. */
  function EntryError(entry: (string, Param)): Reason {
    if !KeyAccepted(entry.0) then BadKey(entry.0) else ArrayValue(entry.0)
  }

  /** Entry `i` is the first one the loop does not let through. */
  predicate FirstBad(post: seq<(string, Param)>, i: int) {
    0 <= i < |post| && !Admissible(post[i]) && forall j :: 0 <= j < i ==> Admissible(post[j])
  }

  /** The loop copying every posted field into the record, stopping at the first bad one. */
  function CopyPost(post: seq<(string, Param)>): (r: Result<Props, Reason>)
    ensures r.Success? <==> forall i :: 0 <= i < |post| ==> Admissible(post[i])
    ensures r.Failure? ==> exists i :: FirstBad(post, i) && r.error == EntryError(post[i])
  {
    if |post| == 0 then Success([])
    else
      var init := post[..|post| - 1];
      var last := post[|post| - 1];
      match CopyPost(init)
      case Failure(e) =>
        FirstBadExtends(post, init, e);
        Failure(e)
      case Success(p) =>
        if !Admissible(last) then
          LastBad(post, init);
          Failure(EntryError(last))
        else
          AllAdmissible(post, init);
          Success(Set(p, last.0, Text(last.1.text)))
  }

  /** A first bad entry before the last one stays the first bad entry. */
  lemma FirstBadExtends(post: seq<(string, Param)>, init: seq<(string, Param)>, e: Reason)
    requires |post| > 0 && init == post[..|post| - 1]
    requires exists i :: FirstBad(init, i) && e == EntryError(init[i])
    ensures exists i :: FirstBad(post, i) && e == EntryError(post[i])
  {
    var i :| FirstBad(init, i) && e == EntryError(init[i]);
    assert forall j :: 0 <= j < |init| ==> init[j] == post[j];
    assert FirstBad(post, i);
  }

  /** When everything before it passes, a bad last entry is the first bad one. */
  lemma LastBad(post: seq<(string, Param)>, init: seq<(string, Param)>)
    requires |post| > 0 && init == post[..|post| - 1] && !Admissible(post[|post| - 1])
    requires forall i :: 0 <= i < |init| ==> Admissible(init[i])
    ensures FirstBad(post, |post| - 1)
  {
    assert forall j :: 0 <= j < |init| ==> init[j] == post[j];
  }

  lemma AllAdmissible(post: seq<(string, Param)>, init: seq<(string, Param)>)
    requires |post| > 0 && init == post[..|post| - 1] && Admissible(post[|post| - 1])
    requires forall i :: 0 <= i < |init| ==> Admissible(init[i])
    ensures forall i :: 0 <= i < |post| ==> Admissible(post[i])
  {
    assert forall j :: 0 <= j < |init| ==> init[j] == post[j];
  }

  // The `custom` field.

  /** The record without `custom` and the three ids `custom` names. */
  datatype Custom = Custom(rest: Props, userId: int, courseId: int, instanceId: int)

  /**
   * `custom` must be non-empty; it is split on '-', removed from the record,
   * and its first three parts cast to integers. Further parts are ignored.
   */
  function ParseCustom(data: Props): (r: Result<Custom, Reason>)
    ensures r.Success? ==> "custom" !in Keys(r.value.rest)
    ensures r.Failure? ==> r.error in {MissingCustom, InvalidCustom}
  {
    var custom := Read(data, "custom");
    if IsEmpty(custom) then Failure(MissingCustom)
    else
      var parts := Explode(Render(custom), '-');
      var rest := Unset(data, "custom");
      if |parts| < 3 then Failure(InvalidCustom)
      else Success(Custom(rest, IntCast(parts[0]), IntCast(parts[1]), IntCast(parts[2])))
  }

  /** The record after the id, payment and time fields are filled in (verify.php:82-87). */
  function Fill(c: Custom, now: int): Props {
    var d := Set(c.rest, "userid", Int(c.userId));
    var d := Set(d, "courseid", Int(c.courseId));
    var d := Set(d, "instanceid", Int(c.instanceId));
    var d := Set(d, "payment_gross", Read(d, "amount"));
    var d := Set(d, "payment_currency", Read(d, "currency_code"));
    Set(d, "timeupdated", Int(now))
  }

  /** Everything gathered before the gateway is asked. */
  datatype Prepared = Prepared(data: Props, userId: int, courseId: int, course: Course, instance: Instance)

  /** An `enrol` row for this plugin that is enabled. */
  predicate IsPaystackInstance(host: Host, id: int) {
    id in host.instances && host.instances[id].enrol == "paystack" && host.instances[id].status == 0
  }

  /** The three record lookups, each of which throws when the row is missing. */
  function Lookups(host: Host, c: Custom): (r: Result<Prepared, Reason>)
    ensures r.Failure? ==> r.error.MissingRecord?
    ensures r.Success? ==> (c.userId in host.users && c.courseId in host.courses
      && IsPaystackInstance(host, c.instanceId)
      && r.value.instance == host.instances[c.instanceId] && r.value.course == host.courses[c.courseId]
      && r.value.userId == c.userId && r.value.courseId == c.courseId)
  {
    var data := Fill(c, host.now);
    if c.userId !in host.users then Failure(MissingRecord(UserTable))
    else if c.courseId !in host.courses then Failure(MissingRecord(CourseTable))
    else
      var course := host.courses[c.courseId];
      var data := Set(data, "item_name", Text(course.fullname));
      if !IsPaystackInstance(host, c.instanceId) then Failure(MissingRecord(EnrolTable))
      else Success(Prepared(data, c.userId, c.courseId, course, host.instances[c.instanceId]))
  }

  /** Everything up to the gateway call, in the order the page runs it. */
  function Prepare(cfg: Config, host: Host, req: Request): Result<Prepared, Reason> {
    match Admit(cfg, req)
    case Some(reason) => Failure(reason)
    case None =>
      match CopyPost(req.post)
      case Failure(reason) => Failure(reason)
      case Success(posted) =>
        match ParseCustom(posted)
        case Failure(reason) => Failure(reason)
        case Success(custom) => Lookups(host, custom)
  }

  // Decisions after the gateway answered.

  const CurrencyNotice: string := "Currency does not match course settings, received: "
  const FailureNotice: string := "Payment status not successful"

  /** The instance cost when positive, the plugin default otherwise. */
  function EffectiveCost(cfg: Config, instance: Instance): real {
    if instance.cost <= 0.0 then cfg.defaultCost else instance.cost
  }

  /** The cost as format_float(cost, 2, false) prints it. */
  function CostString(cfg: Config, instance: Instance): string {
    CostText(Cents(EffectiveCost(cfg, instance)))
  }

  /** is_enrolled() for an active enrolment: the window has started and not ended. */
  predicate Enrolled(enrolments: map<(int, int), Window>, user: int, course: int, now: int) {
    (user, course) in enrolments && Active(enrolments[(user, course)], now)
  }

  /** The record after the gateway's amount, response text and status are stored. */
  function WithGateway(data: Props, gw: Verification): Props
    requires gw.Answer?
  {
    var d := Set(data, "tax", Hundredths(gw.amount));
    var d := Set(d, "memo", Text(gw.gatewayResponse));
    Set(d, "payment_status", Text(gw.paymentStatus))
  }

  /** Mail the primary administrator about the problem, then end the page with the same notice. */
  function AdminHalt(host: Host, notice: string, data: Props): Response {
    Response(Halted(notice), [AdminMessage(ErrorMessage(host.primaryAdmin, host.siteName, notice, data))])
  }

  /** Enrolment start and end: from now for the instance's period, or unlimited (both 0). */
  function EnrolmentTimes(period: int, now: int): (int, int) {
    if period != 0 then (now, now + period) else (0, 0)
  }

  /** The welcome and notification messages after a successful enrolment. */
  function Notifications(cfg: Config, host: Host, userId: int): seq<Effect> {
    (if PhpEmpty(cfg.mailStudents) then [] else [NotifyStudent(userId)])
    + (if PhpEmpty(cfg.mailAdmins) then [] else AdminNotices(host.admins, userId))
  }

  function AdminNotices(admins: seq<int>, userId: int): (r: seq<Effect>)
    ensures |r| == |admins|
    ensures forall i :: 0 <= i < |r| ==> r[i] == NotifyAdmin(admins[i], userId)
  {
    if |admins| == 0 then [] else [NotifyAdmin(admins[0], userId)] + AdminNotices(admins[1..], userId)
  }

  /** Record the transaction, enrol the payer, notify, and show the page is_enrolled() then selects. */
  function Commit(cfg: Config, host: Host, p: Prepared, data: Props): Response {
    var times := EnrolmentTimes(p.instance.enrolPeriod, host.now);
    var effects := [
      LogSuccess(Render(Read(data, "reference"))),
      InsertTransaction(data),
      EnrolUser(p.instance.id, p.userId, p.instance.roleId, times.0, times.1)
    ] + Notifications(cfg, host, p.userId);
    var after := host.enrolments[(p.userId, p.instance.courseId) := Window(times.0, times.1)];
    var page := if Enrolled(after, host.sessionUser, p.courseId, host.now) then Thanks(p.course.fullname)
                else Sorry(p.course.fullname);
    Response(Committed(page), effects)
  }

  /** The page after the gateway answered, in the order verify.php:112-251 runs its checks. */
  function Decide(cfg: Config, host: Host, p: Prepared, gw: Verification): (r: Response)
    requires gw.Answer?
    ensures !r.outcome.Rejected?
  {
    if !gw.status then Response(Halted(gw.message), [])
    else
      var data := WithGateway(p.data, gw);
      var currency := Render(Read(data, "currency_code"));
      if !LooseEquals(currency, p.instance.currency) then AdminHalt(host, CurrencyNotice + currency, data)
      else
        var cost := CostString(cfg, p.instance);
        var gross := Render(Read(data, "payment_gross"));
        if LooseLess(gross, cost) then AdminHalt(host, "Amount paid is not enough (" + gross + " < " + cost + ")", data)
        else if Enrolled(host.enrolments, host.sessionUser, p.courseId, host.now) then
          Response(AlreadyEnrolled(p.course.fullname), [])
        else if LooseEquals(Render(Read(data, "payment_status")), "success") then Commit(cfg, host, p, data)
        else AdminHalt(host, FailureNotice + Render(Read(data, "memo")), data)
  }

  /** An uncaught exception: no effect, and the status the registered handler leaves. */
  function Reject(reason: Reason): Response {
    Response(Rejected(reason, ResponseCode(reason)), [])
  }

  /**
   * The gateway call (verify.php:109): a missing `reference` is null, which
   * the `string` parameter refuses with a TypeError before any request is
   * made; a connection error and a reply that is not an array throw too.
   */
  function Ask(cfg: Config, host: Host, p: Prepared, gw: Verification): Response {
    if Read(p.data, "reference") == Null then Reject(MissingReference)
    else
      match gw
      case ConnectionFailed => Reject(GatewayUnreachable)
      case NotJson => Reject(GatewayReplyInvalid)
      case Answer(_, _, _, _, _) => Decide(cfg, host, p, gw)
  }

  /** The whole callback. */
  function Callback(cfg: Config, host: Host, req: Request, gw: Verification): Response {
    match Prepare(cfg, host, req)
    case Failure(reason) => Reject(reason)
    case Success(p) => Ask(cfg, host, p, gw)
  }

  /** The callback with the exception handler registered as intended: the closure, not its factory. */
  function IntendedCallback(cfg: Config, host: Host, req: Request, gw: Verification): (r: Response)
    ensures r.outcome.Rejected? <==> Callback(cfg, host, req, gw).outcome.Rejected?
    ensures r.outcome.Rejected? ==>
              && r.outcome.status != 200
              && r.outcome.reason == Callback(cfg, host, req, gw).outcome.reason
              && r.effects == Callback(cfg, host, req, gw).effects
    ensures !r.outcome.Rejected? ==> r == Callback(cfg, host, req, gw)
  {
    var r := Callback(cfg, host, req, gw);
    match r.outcome
    case Rejected(reason, _) => Response(Rejected(reason, IntendedResponseCode(reason)), r.effects)
    case _ => r
  }

  // Counting effects.

  function CountInserts(effects: seq<Effect>): nat {
    if |effects| == 0 then 0
    else (if effects[0].InsertTransaction? then 1 else 0) + CountInserts(effects[1..])
  }

  function CountEnrols(effects: seq<Effect>): nat {
    if |effects| == 0 then 0
    else (if effects[0].EnrolUser? then 1 else 0) + CountEnrols(effects[1..])
  }

  /** Nothing is written to the database. */
  predicate NoWrites(effects: seq<Effect>) {
    CountInserts(effects) == 0 && CountEnrols(effects) == 0
  }
}
