/**
 * What the payment callback guarantees, stated over all inputs: the order
 * of its checks, what each terminal branch writes, and how the values it
 * compares relate to the posted fields.
 */
module VerifyProperties {
  import opened Wrappers
  import opened PhpStrings
  import opened PhpNumeric
  import opened PhpObject
  import opened Records
  import opened Util
  import opened Verify

  // The posted fields as the record holds them.

  /** The value a posted field gives the record: its text, or null when it was not posted. */
  function Field(req: Request, key: string): Value {
    match Lookup(req.post, key)
    case Some(Scalar(t)) => Text(t)
    case _ => Null
  }

  /** Looking up in a list extended at the end by a new name. */
  lemma {:induction false} LookupSnoc(init: seq<(string, Param)>, last: (string, Param), k: string)
    requires forall i :: 0 <= i < |init| ==> init[i].0 != last.0
    ensures Lookup(init + [last], k) == if k == last.0 then Some(last.1) else Lookup(init, k)
  {
    if |init| > 0 {
      assert (init + [last])[1..] == init[1..] + [last];
      LookupSnoc(init[1..], last, k);
    } else {
      assert init + [last] == [last];
    }
  }

  /** A successful copy is the copy of all but the last field, with the last field assigned. */
  lemma CopyPostSnoc(post: seq<(string, Param)>)
    requires |post| > 0 && CopyPost(post).Success?
    ensures var init := post[..|post| - 1];
      var last := post[|post| - 1];
      CopyPost(init).Success? && last.1.Scalar?
      && CopyPost(post).value == Set(CopyPost(init).value, last.0, Text(last.1.text))
  {
  }

  /** Dropping the last field keeps the names distinct, and the last name is not among the others. */
  lemma DistinctInit(init: seq<(string, Param)>, last: (string, Param))
    requires DistinctKeys(init + [last])
    ensures DistinctKeys(init)
    ensures forall i :: 0 <= i < |init| ==> init[i].0 != last.0
  {
    var post := init + [last];
    assert forall i :: 0 <= i < |init| ==> init[i] == post[i];
    assert last == post[|init|];
  }

  lemma CopyPostGetEmpty(post: seq<(string, Param)>, k: string)
    requires |post| == 0
    ensures CopyPost(post).Success? && Read(CopyPost(post).value, k) == Field(Request(post, 0), k)
  {
  }

  /** When the copy succeeds, every property of the record is the posted field of that name. */
  lemma {:induction false} CopyPostGet(post: seq<(string, Param)>, k: string)
    requires DistinctKeys(post) && CopyPost(post).Success?
    ensures Read(CopyPost(post).value, k) == Field(Request(post, 0), k)
    decreases |post|
  {
    hide CopyPost, DistinctKeys, Set, Lookup, Admissible;
    if |post| == 0 {
      CopyPostGetEmpty(post, k);
    } else {
      var init := post[..|post| - 1];
      var last := post[|post| - 1];
      assert post == init + [last];
      CopyPostSnoc(post);
      DistinctInit(init, last);
      var p := CopyPost(init).value;
      CopyPostGet(init, k);
      SetGet(p, last.0, Text(last.1.text), k);
      LookupSnoc(init, last, k);
    }
  }

  /** Reading after an assignment. */
  lemma ReadSet(p: Props, key: string, v: Value, k: string)
    ensures Read(Set(p, key, v), k) == if k == key then v else Read(p, k)
  {
    SetGet(p, key, v, k);
  }

  /** The record after the ids, payment fields and time are filled in, property by property. */
  lemma FillRead(c: Custom, now: int, k: string)
    ensures Read(Fill(c, now), k) ==
      if k == "timeupdated" then Int(now)
      else if k == "payment_currency" then Read(c.rest, "currency_code")
      else if k == "payment_gross" then Read(c.rest, "amount")
      else if k == "instanceid" then Int(c.instanceId)
      else if k == "courseid" then Int(c.courseId)
      else if k == "userid" then Int(c.userId)
      else Read(c.rest, k)
  {
    var d1 := Set(c.rest, "userid", Int(c.userId));
    var d2 := Set(d1, "courseid", Int(c.courseId));
    var d3 := Set(d2, "instanceid", Int(c.instanceId));
    var d4 := Set(d3, "payment_gross", Read(d3, "amount"));
    var d5 := Set(d4, "payment_currency", Read(d4, "currency_code"));
    hide *;
    ReadSet(c.rest, "userid", Int(c.userId), "amount");
    ReadSet(d1, "courseid", Int(c.courseId), "amount");
    ReadSet(d2, "instanceid", Int(c.instanceId), "amount");
    ReadSet(d3, "payment_gross", Read(d3, "amount"), "currency_code");
    ReadSet(d2, "instanceid", Int(c.instanceId), "currency_code");
    ReadSet(d1, "courseid", Int(c.courseId), "currency_code");
    ReadSet(c.rest, "userid", Int(c.userId), "currency_code");
    ReadSet(c.rest, "userid", Int(c.userId), k);
    ReadSet(d1, "courseid", Int(c.courseId), k);
    ReadSet(d2, "instanceid", Int(c.instanceId), k);
    ReadSet(d3, "payment_gross", Read(d3, "amount"), k);
    ReadSet(d4, "payment_currency", Read(d4, "currency_code"), k);
    ReadSet(d5, "timeupdated", Int(now), k);
    FillUnfold(c, now);
  }

  lemma FillUnfold(c: Custom, now: int)
    ensures var d1 := Set(c.rest, "userid", Int(c.userId));
      var d2 := Set(d1, "courseid", Int(c.courseId));
      var d3 := Set(d2, "instanceid", Int(c.instanceId));
      var d4 := Set(d3, "payment_gross", Read(d3, "amount"));
      var d5 := Set(d4, "payment_currency", Read(d4, "currency_code"));
      Fill(c, now) == Set(d5, "timeupdated", Int(now))
  {
  }

  /** The stages a prepared request went through. */
  lemma PrepareStages(cfg: Config, host: Host, req: Request, p: Prepared) returns (posted: Props, c: Custom)
    requires Prepare(cfg, host, req) == Success(p)
    ensures Admit(cfg, req).None? && CopyPost(req.post) == Success(posted)
    ensures ParseCustom(posted) == Success(c) && Lookups(host, c) == Success(p)
    ensures p.data == Set(Fill(c, host.now), "item_name", Text(p.course.fullname))
    ensures c.rest == Unset(posted, "custom")
  {
    hide Admit, CopyPost, ParseCustom, Lookups, Fill, Set, Unset;
    posted := CopyPost(req.post).value;
    c := ParseCustom(posted).value;
    LookupsData(host, c);
    ParseCustomRest(posted);
  }

  lemma LookupsData(host: Host, c: Custom)
    requires Lookups(host, c).Success?
    ensures var p := Lookups(host, c).value;
      p.data == Set(Fill(c, host.now), "item_name", Text(p.course.fullname))
  {
  }

  lemma ParseCustomRest(data: Props)
    requires ParseCustom(data).Success?
    ensures ParseCustom(data).value.rest == Unset(data, "custom")
  {
  }

  /** The properties the callback itself assigns before calling the gateway. */
  const Assigned: set<string> :=
    {"custom", "userid", "courseid", "instanceid", "payment_gross", "payment_currency", "timeupdated", "item_name"}

  /**
   * Before the gateway is asked, every posted property the callback does not
   * assign is still the posted field, and `payment_gross` is the posted
   * `amount`.
   */
  lemma PreparedRead(cfg: Config, host: Host, req: Request, p: Prepared, k: string)
    requires Prepare(cfg, host, req) == Success(p) && DistinctKeys(req.post)
    ensures k !in Assigned ==> Read(p.data, k) == Field(req, k)
    ensures Read(p.data, "payment_gross") == Field(req, "amount")
    ensures Read(p.data, "item_name") == Text(p.course.fullname)
  {
    var posted, c := PrepareStages(cfg, host, req, p);
    hide *;
    ReadSet(Fill(c, host.now), "item_name", Text(p.course.fullname), k);
    ReadSet(Fill(c, host.now), "item_name", Text(p.course.fullname), "payment_gross");
    ReadSet(Fill(c, host.now), "item_name", Text(p.course.fullname), "item_name");
    FillRead(c, host.now, k);
    FillRead(c, host.now, "payment_gross");
    UnsetRead(posted, "custom", k);
    UnsetRead(posted, "custom", "amount");
    CopyPostGet(req.post, k);
    CopyPostGet(req.post, "amount");
    FieldOf(req, k);
    FieldOf(req, "amount");
  }

  lemma UnsetRead(p: Props, key: string, k: string)
    ensures Read(Unset(p, key), k) == if k == key then Null else Read(p, k)
  {
    UnsetGet(p, key, k);
  }

  lemma FieldOf(req: Request, k: string)
    ensures Field(Request(req.post, 0), k) == Field(req, k)
  {
  }

  /** After the gateway's answer is stored: its status and response text, everything else as before. */
  lemma GatewayRead(data: Props, gw: Verification, k: string)
    requires gw.Answer?
    ensures Read(WithGateway(data, gw), k) ==
      if k == "payment_status" then Text(gw.paymentStatus)
      else if k == "memo" then Text(gw.gatewayResponse)
      else if k == "tax" then Hundredths(gw.amount)
      else Read(data, k)
  {
    var d1 := Set(data, "tax", Hundredths(gw.amount));
    var d2 := Set(d1, "memo", Text(gw.gatewayResponse));
    assert WithGateway(data, gw) == Set(d2, "payment_status", Text(gw.paymentStatus));
    hide *;
    ReadSet(data, "tax", Hundredths(gw.amount), k);
    ReadSet(d1, "memo", Text(gw.gatewayResponse), k);
    ReadSet(d2, "payment_status", Text(gw.paymentStatus), k);
  }

  // What the decisions compare.

  /** The posted currency code as the comparison reads it ("" when absent). */
  function PostedCurrency(req: Request): string {
    Render(Field(req, "currency_code"))
  }

  /** The posted amount as the comparison reads it ("" when absent). */
  function PostedAmount(req: Request): string {
    Render(Field(req, "amount"))
  }

  /**
   * The currency and amount checks read the fields the client posted, not
   * anything the gateway returned; the payment status and memo are the
   * gateway's.
   */
  lemma DecisionInputs(cfg: Config, host: Host, req: Request, gw: Verification, p: Prepared)
    requires Prepare(cfg, host, req) == Success(p) && DistinctKeys(req.post) && gw.Answer?
    ensures var data := WithGateway(p.data, gw);
      Render(Read(data, "currency_code")) == PostedCurrency(req)
      && Render(Read(data, "payment_gross")) == PostedAmount(req)
      && Read(data, "payment_status") == Text(gw.paymentStatus)
      && Read(data, "memo") == Text(gw.gatewayResponse)
      && Read(data, "reference") == Field(req, "reference")
  {
    hide Read, Render, WithGateway, Set, Field, Lookup, Prepare, Get;
    GatewayRead(p.data, gw, "currency_code");
    GatewayRead(p.data, gw, "payment_gross");
    GatewayRead(p.data, gw, "payment_status");
    GatewayRead(p.data, gw, "memo");
    GatewayRead(p.data, gw, "reference");
    PreparedRead(cfg, host, req, p, "currency_code");
    PreparedReference(cfg, host, req, p);
    NotAssigned();
  }

  /** The posted `reference` is what the page hands to the gateway call. */
  lemma PreparedReference(cfg: Config, host: Host, req: Request, p: Prepared)
    requires Prepare(cfg, host, req) == Success(p) && DistinctKeys(req.post)
    ensures Read(p.data, "reference") == Field(req, "reference")
  {
    PreparedRead(cfg, host, req, p, "reference");
    NotAssigned();
  }

  lemma NotAssigned()
    ensures "currency_code" !in Assigned && "reference" !in Assigned
  {
  }

  /** "success" is not a numeric string, so the loose comparison with it is plain equality. */
  lemma SuccessIsExact(status: string)
    ensures LooseEquals(status, "success") <==> status == "success"
  {
    assert ParseNumeric("success") == None by {
      assert SpaceSpan("success") == 0;
      assert DigitSpan("success") == 0;
    }
  }

  /**
   * The gateway call: without a posted `reference`, or when the call fails
   * or its reply is not JSON, the page ends in an exception that leaves the
   * status at 200 and writes nothing; otherwise the answer decides.
   */
  lemma GatewayCall(cfg: Config, host: Host, req: Request, gw: Verification, p: Prepared)
    requires Prepare(cfg, host, req) == Success(p) && DistinctKeys(req.post)
    ensures Field(req, "reference") == Null ==>
      Callback(cfg, host, req, gw) == Response(Rejected(MissingReference, 200), [])
    ensures Field(req, "reference") != Null && gw.ConnectionFailed? ==>
      Callback(cfg, host, req, gw) == Response(Rejected(GatewayUnreachable, 200), [])
    ensures Field(req, "reference") != Null && gw.NotJson? ==>
      Callback(cfg, host, req, gw) == Response(Rejected(GatewayReplyInvalid, 200), [])
    ensures Field(req, "reference") != Null && gw.Answer? ==> Callback(cfg, host, req, gw) == Decide(cfg, host, p, gw)
  {
    hide Prepare, Decide, Read, Field;
    PreparedReference(cfg, host, req, p);
  }

  /**
   * The decision table after the gateway answered, in the order the page
   * runs it, in terms of the posted fields and the gateway's answer.
   */
  lemma CallbackCases(cfg: Config, host: Host, req: Request, gw: Verification, p: Prepared)
    requires Prepare(cfg, host, req) == Success(p) && DistinctKeys(req.post)
    requires Field(req, "reference") != Null && gw.Answer?
    ensures var data := WithGateway(p.data, gw);
      var currency := PostedCurrency(req);
      var amount := PostedAmount(req);
      var cost := CostString(cfg, p.instance);
      Callback(cfg, host, req, gw) ==
        if !gw.status then Response(Halted(gw.message), [])
        else if !LooseEquals(currency, p.instance.currency) then AdminHalt(host, CurrencyNotice + currency, data)
        else if LooseLess(amount, cost) then
          AdminHalt(host, "Amount paid is not enough (" + amount + " < " + cost + ")", data)
        else if Enrolled(host.enrolments, host.sessionUser, p.courseId, host.now) then
          Response(AlreadyEnrolled(p.course.fullname), [])
        else if gw.paymentStatus == "success" then Commit(cfg, host, p, data)
        else AdminHalt(host, FailureNotice + gw.gatewayResponse, data)
  {
    hide Prepare, Decide, AdminHalt, Commit, CostString, LooseEquals, LooseLess, WithGateway, Read, Render,
      PostedCurrency, PostedAmount, Enrolled, Callback, Field;
    GatewayCall(cfg, host, req, gw, p);
    DecisionInputs(cfg, host, req, gw, p);
    DecideTable(cfg, host, p, gw, PostedCurrency(req), PostedAmount(req));
  }

  /** The decision table in terms of the fields of the stored record the page reads. */
  lemma DecideTable(cfg: Config, host: Host, p: Prepared, gw: Verification, currency: string, amount: string)
    requires gw.Answer?
    requires var data := WithGateway(p.data, gw);
      Render(Read(data, "currency_code")) == currency && Render(Read(data, "payment_gross")) == amount
      && Read(data, "payment_status") == Text(gw.paymentStatus) && Read(data, "memo") == Text(gw.gatewayResponse)
    ensures var data := WithGateway(p.data, gw);
      var cost := CostString(cfg, p.instance);
      Decide(cfg, host, p, gw) ==
        if !gw.status then Response(Halted(gw.message), [])
        else if !LooseEquals(currency, p.instance.currency) then AdminHalt(host, CurrencyNotice + currency, data)
        else if LooseLess(amount, cost) then
          AdminHalt(host, "Amount paid is not enough (" + amount + " < " + cost + ")", data)
        else if Enrolled(host.enrolments, host.sessionUser, p.courseId, host.now) then
          Response(AlreadyEnrolled(p.course.fullname), [])
        else if gw.paymentStatus == "success" then Commit(cfg, host, p, data)
        else AdminHalt(host, FailureNotice + gw.gatewayResponse, data)
  {
    SuccessIsExact(gw.paymentStatus);
    hide AdminHalt, Commit, CostString, LooseEquals, LooseLess, WithGateway, Read, Enrolled;
  }

  // The shape of each ending.

  lemma {:induction false} CountInsertsAppend(a: seq<Effect>, b: seq<Effect>)
    ensures CountInserts(a + b) == CountInserts(a) + CountInserts(b)
    ensures CountEnrols(a + b) == CountEnrols(a) + CountEnrols(b)
  {
    if |a| == 0 {
      assert a + b == b;
    } else {
      assert (a + b)[1..] == a[1..] + b;
      CountInsertsAppend(a[1..], b);
    }
  }

  /** Effects that are only notifications write nothing. */
  lemma {:induction false} NoticesNoWrites(effects: seq<Effect>)
    requires forall i :: 0 <= i < |effects| ==> effects[i].NotifyStudent? || effects[i].NotifyAdmin?
    ensures NoWrites(effects)
  {
    if |effects| > 0 {
      NoticesNoWrites(effects[1..]);
    }
  }

  /** The notifications are the student's welcome and one message per administrator. */
  lemma NotificationsOnly(cfg: Config, host: Host, userId: int)
    ensures var n := Notifications(cfg, host, userId);
      (forall i :: 0 <= i < |n| ==> n[i].NotifyStudent? || n[i].NotifyAdmin?) && NoWrites(n)
  {
    var n := Notifications(cfg, host, userId);
    var a := if PhpEmpty(cfg.mailAdmins) then [] else AdminNotices(host.admins, userId);
    var st: seq<Effect> := if PhpEmpty(cfg.mailStudents) then [] else [NotifyStudent(userId)];
    assert n == st + a;
    assert forall i :: 0 <= i < |n| ==> n[i].NotifyStudent? || n[i].NotifyAdmin? by {
      assert forall i :: |st| <= i < |n| ==> n[i] == a[i - |st|];
    }
    NoticesNoWrites(n);
  }

  /** A halt after mailing the administrator: one message, from and to the primary admin, nothing written. */
  lemma AdminHaltShape(host: Host, notice: string, data: Props)
    ensures var r := AdminHalt(host, notice, data);
      r.outcome == Halted(notice) && |r.effects| == 1 && r.effects[0].AdminMessage?
      && r.effects[0].message == ErrorMessage(host.primaryAdmin, host.siteName, notice, data)
      && r.effects[0].message.userFrom == host.primaryAdmin && r.effects[0].message.userTo == host.primaryAdmin
      && r.effects[0].message.subject == SubjectPrefix + notice
      && NoWrites(r.effects)
  {
    var m := ErrorMessage(host.primaryAdmin, host.siteName, notice, data);
    assert m.subject == m.subject[..|SubjectPrefix|] + m.subject[|SubjectPrefix|..];
    var r := AdminHalt(host, notice, data);
    assert r.effects[1..] == [];
  }

  /**
   * A commit logs the reference, inserts the record once and enrols the
   * payer once with the instance's role: from now for the enrolment
   * period, or without limits (0, 0) when the period is 0.
   */
  lemma CommitShape(cfg: Config, host: Host, p: Prepared, data: Props)
    ensures var r := Commit(cfg, host, p, data);
      var period := p.instance.enrolPeriod;
      r.outcome.Committed? && |r.effects| >= 3
      && r.effects[0] == LogSuccess(Render(Read(data, "reference")))
      && r.effects[1] == InsertTransaction(data)
      && r.effects[2].EnrolUser?
      && r.effects[2].instanceId == p.instance.id && r.effects[2].userId == p.userId
      && r.effects[2].roleId == p.instance.roleId
      && (period != 0 ==> r.effects[2].timeStart == host.now && r.effects[2].timeEnd == host.now + period)
      && (period == 0 ==> r.effects[2].timeStart == 0 && r.effects[2].timeEnd == 0)
      && CountInserts(r.effects) == 1 && CountEnrols(r.effects) == 1
  {
    var r := Commit(cfg, host, p, data);
    var head := r.effects[..3];
    var n := Notifications(cfg, host, p.userId);
    assert r.effects == head + n;
    NotificationsOnly(cfg, host, p.userId);
    CountInsertsAppend(head, n);
    assert head[1..][1..][1..] == [];
    assert CountInserts(head[1..][1..]) == 0 && CountEnrols(head[1..][1..]) == 1;
    assert CountInserts(head[1..]) == 1 && CountEnrols(head[1..]) == 1;
  }

  // The branches after the gateway call.

  /** A gateway answer with a false status ends the page with its message; nothing is sent or written. */
  lemma GatewayFailureHalts(cfg: Config, host: Host, req: Request, gw: Verification, p: Prepared)
    requires Prepare(cfg, host, req) == Success(p) && DistinctKeys(req.post)
    requires Field(req, "reference") != Null && gw.Answer? && !gw.status
    ensures Callback(cfg, host, req, gw) == Response(Halted(gw.message), [])
  {
    CallbackCases(cfg, host, req, gw, p);
  }

  /** A posted currency that does not loosely equal the instance's mails the admin and halts without writing. */
  lemma CurrencyMismatchHalts(cfg: Config, host: Host, req: Request, gw: Verification, p: Prepared)
    requires Prepare(cfg, host, req) == Success(p) && DistinctKeys(req.post)
    requires Field(req, "reference") != Null && gw.Answer? && gw.status && !LooseEquals(PostedCurrency(req), p.instance.currency)
    ensures var r := Callback(cfg, host, req, gw);
      var notice := CurrencyNotice + PostedCurrency(req);
      r.outcome == Halted(notice) && |r.effects| == 1
      && r.effects[0] == AdminMessage(ErrorMessage(host.primaryAdmin, host.siteName, notice, WithGateway(p.data, gw)))
      && NoWrites(r.effects)
  {
    CallbackCases(cfg, host, req, gw, p);
    AdminHaltShape(host, CurrencyNotice + PostedCurrency(req), WithGateway(p.data, gw));
  }

  /** A posted amount below the formatted cost mails the admin and halts without writing. */
  lemma AmountShortHalts(cfg: Config, host: Host, req: Request, gw: Verification, p: Prepared)
    requires Prepare(cfg, host, req) == Success(p) && DistinctKeys(req.post)
    requires Field(req, "reference") != Null && gw.Answer? && gw.status && LooseEquals(PostedCurrency(req), p.instance.currency)
    requires LooseLess(PostedAmount(req), CostString(cfg, p.instance))
    ensures var r := Callback(cfg, host, req, gw);
      var notice := "Amount paid is not enough (" + PostedAmount(req) + " < " + CostString(cfg, p.instance) + ")";
      r.outcome == Halted(notice) && |r.effects| == 1
      && r.effects[0] == AdminMessage(ErrorMessage(host.primaryAdmin, host.siteName, notice, WithGateway(p.data, gw)))
      && NoWrites(r.effects)
  {
    CallbackCases(cfg, host, req, gw, p);
    AdminHaltShape(host, "Amount paid is not enough (" + PostedAmount(req) + " < " + CostString(cfg, p.instance) + ")",
      WithGateway(p.data, gw));
  }

  /**
   * When the currency and amount checks pass and the logged-in user is
   * already enrolled, the page redirects with thanks and writes nothing,
   * whatever the payment status.
   */
  lemma AlreadyEnrolledRedirects(cfg: Config, host: Host, req: Request, gw: Verification, p: Prepared)
    requires Prepare(cfg, host, req) == Success(p) && DistinctKeys(req.post)
    requires Field(req, "reference") != Null && gw.Answer? && gw.status && LooseEquals(PostedCurrency(req), p.instance.currency)
    requires !LooseLess(PostedAmount(req), CostString(cfg, p.instance))
    requires Enrolled(host.enrolments, host.sessionUser, p.courseId, host.now)
    ensures Callback(cfg, host, req, gw) == Response(AlreadyEnrolled(p.course.fullname), [])
  {
    CallbackCases(cfg, host, req, gw, p);
  }

  /**
   * With every check passed and the status exactly "success", the record is
   * inserted once and the payer enrolled once with the instance's role and
   * period.
   */
  lemma SuccessCommits(cfg: Config, host: Host, req: Request, gw: Verification, p: Prepared)
    requires Prepare(cfg, host, req) == Success(p) && DistinctKeys(req.post)
    requires Field(req, "reference") != Null && gw.Answer? && gw.status && LooseEquals(PostedCurrency(req), p.instance.currency)
    requires !LooseLess(PostedAmount(req), CostString(cfg, p.instance))
    requires !Enrolled(host.enrolments, host.sessionUser, p.courseId, host.now)
    requires gw.paymentStatus == "success"
    ensures var r := Callback(cfg, host, req, gw);
      var period := p.instance.enrolPeriod;
      r.outcome.Committed? && |r.effects| >= 3
      && r.effects[0] == LogSuccess(Render(Field(req, "reference")))
      && r.effects[1] == InsertTransaction(WithGateway(p.data, gw))
      && r.effects[2].EnrolUser?
      && r.effects[2].instanceId == p.instance.id && r.effects[2].userId == p.userId
      && r.effects[2].roleId == p.instance.roleId
      && (period != 0 ==> r.effects[2].timeStart == host.now && r.effects[2].timeEnd == host.now + period)
      && (period == 0 ==> r.effects[2].timeStart == 0 && r.effects[2].timeEnd == 0)
      && CountInserts(r.effects) == 1 && CountEnrols(r.effects) == 1
  {
    CallbackCases(cfg, host, req, gw, p);
    CommitShape(cfg, host, p, WithGateway(p.data, gw));
    DecisionInputs(cfg, host, req, gw, p);
  }

  /** Any other payment status mails the admin with the gateway's response text and halts without writing. */
  lemma UnsuccessfulHalts(cfg: Config, host: Host, req: Request, gw: Verification, p: Prepared)
    requires Prepare(cfg, host, req) == Success(p) && DistinctKeys(req.post)
    requires Field(req, "reference") != Null && gw.Answer? && gw.status && LooseEquals(PostedCurrency(req), p.instance.currency)
    requires !LooseLess(PostedAmount(req), CostString(cfg, p.instance))
    requires !Enrolled(host.enrolments, host.sessionUser, p.courseId, host.now)
    requires gw.paymentStatus != "success"
    ensures var r := Callback(cfg, host, req, gw);
      var notice := FailureNotice + gw.gatewayResponse;
      r.outcome == Halted(notice) && |r.effects| == 1
      && r.effects[0] == AdminMessage(ErrorMessage(host.primaryAdmin, host.siteName, notice, WithGateway(p.data, gw)))
      && NoWrites(r.effects)
  {
    CallbackCases(cfg, host, req, gw, p);
    AdminHaltShape(host, FailureNotice + gw.gatewayResponse, WithGateway(p.data, gw));
  }

  // Over all inputs.

  /**
   * Whatever the inputs: at most one insert, exactly as many enrolments as
   * inserts, an insert exactly when the page commits, and nothing at all
   * sent or written when the request is rejected or the user is already
   * enrolled. A request is rejected exactly when a check before the gateway
   * call fails, `reference` was not posted, or the gateway gave no answer.
   */
  lemma CallbackWrites(cfg: Config, host: Host, req: Request, gw: Verification)
    requires DistinctKeys(req.post)
    ensures var r := Callback(cfg, host, req, gw);
      CountInserts(r.effects) <= 1 && CountEnrols(r.effects) == CountInserts(r.effects)
      && (CountInserts(r.effects) == 1 <==> r.outcome.Committed?)
      && (r.outcome.Rejected? || r.outcome.AlreadyEnrolled? ==> r.effects == [])
      && (r.outcome.Rejected? <==>
            Prepare(cfg, host, req).Failure? || Field(req, "reference") == Null || !gw.Answer?)
  {
    match Prepare(cfg, host, req)
    case Failure(_) =>
    case Success(p) =>
      GatewayCall(cfg, host, req, gw, p);
      if Field(req, "reference") != Null && gw.Answer? {
        var data := WithGateway(p.data, gw);
        CallbackCases(cfg, host, req, gw, p);
        AdminHaltShape(host, CurrencyNotice + PostedCurrency(req), data);
        AdminHaltShape(host, "Amount paid is not enough (" + PostedAmount(req) + " < " + CostString(cfg, p.instance) + ")", data);
        AdminHaltShape(host, FailureNotice + gw.gatewayResponse, data);
        CommitShape(cfg, host, p, data);
      }
  }

  /**
   * The thanks redirect without writing only comes after the gateway
   * answered with a true status and the currency and amount checks passed.
   */
  lemma AlreadyEnrolledOnlyAfterChecks(cfg: Config, host: Host, req: Request, gw: Verification)
    requires DistinctKeys(req.post)
    requires Callback(cfg, host, req, gw).outcome.AlreadyEnrolled?
    ensures Prepare(cfg, host, req).Success?
    ensures var p := Prepare(cfg, host, req).value;
      Field(req, "reference") != Null && gw.Answer?
      && gw.status && LooseEquals(PostedCurrency(req), p.instance.currency)
      && !LooseLess(PostedAmount(req), CostString(cfg, p.instance))
      && Enrolled(host.enrolments, host.sessionUser, p.courseId, host.now)
  {
    match Prepare(cfg, host, req)
    case Failure(_) =>
    case Success(p) =>
      GatewayCall(cfg, host, req, gw, p);
      if Field(req, "reference") != Null && gw.Answer? {
        var data := WithGateway(p.data, gw);
        CallbackCases(cfg, host, req, gw, p);
        AdminHaltShape(host, CurrencyNotice + PostedCurrency(req), data);
        AdminHaltShape(host, "Amount paid is not enough (" + PostedAmount(req) + " < " + CostString(cfg, p.instance) + ")", data);
        AdminHaltShape(host, FailureNotice + gw.gatewayResponse, data);
        CommitShape(cfg, host, p, data);
      }
  }

  /**
   * A commit only happens when the gateway answered, every check passed, the
   * user was not enrolled and the status is "success".
   */
  lemma CommittedOnlyAfterChecks(cfg: Config, host: Host, req: Request, gw: Verification)
    requires DistinctKeys(req.post)
    requires Callback(cfg, host, req, gw).outcome.Committed?
    ensures Prepare(cfg, host, req).Success?
    ensures var p := Prepare(cfg, host, req).value;
      Field(req, "reference") != Null && gw.Answer?
      && gw.status && LooseEquals(PostedCurrency(req), p.instance.currency)
      && !LooseLess(PostedAmount(req), CostString(cfg, p.instance))
      && !Enrolled(host.enrolments, host.sessionUser, p.courseId, host.now)
      && gw.paymentStatus == "success"
  {
    match Prepare(cfg, host, req)
    case Failure(_) =>
    case Success(p) =>
      GatewayCall(cfg, host, req, gw, p);
      if Field(req, "reference") != Null && gw.Answer? {
        var data := WithGateway(p.data, gw);
        CallbackCases(cfg, host, req, gw, p);
        AdminHaltShape(host, CurrencyNotice + PostedCurrency(req), data);
        AdminHaltShape(host, "Amount paid is not enough (" + PostedAmount(req) + " < " + CostString(cfg, p.instance) + ")", data);
        AdminHaltShape(host, FailureNotice + gw.gatewayResponse, data);
      }
  }

  // The exception handler as registered.

  /**
   * Every exception ends the page with the status set before it: 503 and
   * 400 for the first two checks, 200 for every later one. With the closure
   * registered instead of its factory, exactly those 200s would be 500s.
   */
  lemma UnhandledStatus(cfg: Config, host: Host, req: Request, gw: Verification)
    ensures var r := Callback(cfg, host, req, gw);
      r.outcome.Rejected? ==>
        r.outcome.status == ResponseCode(r.outcome.reason)
        && (r.outcome.status == 200 <==> r.outcome.reason != Disabled && r.outcome.reason != MalformedRequest)
    ensures var r := Callback(cfg, host, req, gw);
      var i := IntendedCallback(cfg, host, req, gw);
      r.outcome.Rejected? ==> i.outcome.status == if r.outcome.status == 200 then 500 else r.outcome.status
  {
    hide Prepare, Decide;
  }

  /**
   * A request without `paystack-trxref` shows the discrepancy: the page
   * answers 200 where the handler it means to install answers 500.
   */
  lemma MissingTrxrefAnswers200(host: Host, gw: Verification)
    ensures var cfg := Config(true, 0.0, "", "");
      var req := Request([("custom", Scalar("1-2-3"))], 0);
      Callback(cfg, host, req, gw) == Response(Rejected(MissingTrxref, 200), [])
      && IntendedCallback(cfg, host, req, gw) == Response(Rejected(MissingTrxref, 500), [])
  {
    var req := Request([("custom", Scalar("1-2-3"))], 0);
    assert Lookup(req.post, TrxrefKey) == None;
  }

  // The checks before the gateway call.

  /** A disabled plugin rejects every request with 503. */
  lemma DisabledRejected(cfg: Config, host: Host, req: Request, gw: Verification)
    requires !cfg.enabled
    ensures Callback(cfg, host, req, gw) == Response(Rejected(Disabled, 503), [])
  {
  }

  /** An empty POST or any query string is rejected with 400 before anything else is read. */
  lemma MalformedRejected(cfg: Config, host: Host, req: Request, gw: Verification)
    requires cfg.enabled && (|req.post| == 0 || req.getCount > 0)
    ensures Callback(cfg, host, req, gw) == Response(Rejected(MalformedRequest, 400), [])
  {
  }

  /**
   * A missing or empty `paystack-trxref` ends the request before the fields
   * are copied, with the status left at 200.
   */
  lemma TrxrefRequired(cfg: Config, host: Host, req: Request, gw: Verification)
    requires cfg.enabled && |req.post| > 0 && req.getCount == 0
    ensures Lookup(req.post, TrxrefKey).None? ==>
      Callback(cfg, host, req, gw) == Response(Rejected(MissingTrxref, 200), [])
    ensures Lookup(req.post, TrxrefKey).Some? && !Filled(Lookup(req.post, TrxrefKey).value) ==>
      Callback(cfg, host, req, gw) == Response(Rejected(EmptyTrxref, 200), [])
  {
  }

  /** Only one entry can be the first bad one. */
  lemma FirstBadUnique(post: seq<(string, Param)>, i: int, j: int)
    requires FirstBad(post, i) && FirstBad(post, j)
    ensures i == j
  {
  }

  /** The first field with a bad name or an array value rejects the request, naming that field; the status stays 200. */
  lemma BadEntryRejected(cfg: Config, host: Host, req: Request, gw: Verification, i: int)
    requires Admit(cfg, req).None? && FirstBad(req.post, i)
    ensures Callback(cfg, host, req, gw) == Response(Rejected(EntryError(req.post[i]), 200), [])
  {
    hide Admit, CopyPost, ParseCustom, Lookups, Ask, Admissible, TrxrefGiven, KeyAccepted;
    var r := CopyPost(req.post);
    var j :| FirstBad(req.post, j) && r.error == EntryError(req.post[j]);
    FirstBadUnique(req.post, i, j);
  }

  /** A name PHP stores as an integer key is refused even though cleaning leaves it unchanged. */
  lemma IntegerNameRejected(n: nat)
    requires n <= MaxLong
    ensures var k := NatToString(n);
      CleanAlnumExt(k) == k && !KeyAccepted(k)
  {
    var k := NatToString(n);
    assert AllAlnumExt(k);
    CleanAlnumExtFixed(k);
    assert k[0] != '-';
    assert IsIntegerKey(k);
  }

  /** Any other name passes exactly when every character is a letter, digit, '_' or '-'. */
  lemma KeyAcceptedChars(k: string)
    requires !IsIntegerKey(k)
    ensures KeyAccepted(k) <==> AllAlnumExt(k)
  {
    CleanAlnumExtFixed(k);
  }

  /** The stages before the lookups, for a request whose fields are all acceptable. */
  lemma CopiedRequest(cfg: Config, host: Host, req: Request)
    requires Admit(cfg, req).None? && forall i :: 0 <= i < |req.post| ==> Admissible(req.post[i])
    ensures CopyPost(req.post).Success?
    ensures Prepare(cfg, host, req) == match ParseCustom(CopyPost(req.post).value)
      case Failure(reason) => Failure(reason)
      case Success(c) => Lookups(host, c)
  {
    hide Admit, CopyPost, ParseCustom, Lookups, Admissible, TrxrefGiven;
  }

  /** A missing or empty `custom` field rejects the request; the status stays 200. */
  lemma CustomMissingRejected(cfg: Config, host: Host, req: Request, gw: Verification)
    requires Admit(cfg, req).None? && forall i :: 0 <= i < |req.post| ==> Admissible(req.post[i])
    requires DistinctKeys(req.post) && IsEmpty(Field(req, "custom"))
    ensures Callback(cfg, host, req, gw) == Response(Rejected(MissingCustom, 200), [])
  {
    hide Admit, CopyPost, Lookups, Read, Field, DistinctKeys, Admissible, Ask, Explode, Unset, IntCast;
    CopiedRequest(cfg, host, req);
    CopyPostGet(req.post, "custom");
    FieldOf(req, "custom");
  }

  /** A non-empty `custom` with fewer than two '-' rejects the request; the status stays 200. */
  lemma CustomShortRejected(cfg: Config, host: Host, req: Request, gw: Verification, t: string)
    requires Admit(cfg, req).None? && forall i :: 0 <= i < |req.post| ==> Admissible(req.post[i])
    requires DistinctKeys(req.post) && Field(req, "custom") == Text(t)
    requires !PhpEmpty(t) && Count(t, '-') < 2
    ensures Callback(cfg, host, req, gw) == Response(Rejected(InvalidCustom, 200), [])
  {
    hide Admit, CopyPost, ParseCustom, Lookups, Read, Field, DistinctKeys, Admissible, Count, PhpEmpty, Ask;
    CopiedRequest(cfg, host, req);
    CopyPostGet(req.post, "custom");
    FieldOf(req, "custom");
    ParseCustomShort(CopyPost(req.post).value, t);
  }

  lemma ParseCustomShort(data: Props, t: string)
    requires Read(data, "custom") == Text(t) && !PhpEmpty(t) && Count(t, '-') < 2
    ensures ParseCustom(data) == Failure(InvalidCustom)
  {
    hide Explode, Unset, IntCast;
    assert |Explode(t, '-')| < 3;
  }

  /** `custom` splits into `parts`: the ids are the integer casts of the first three. */
  lemma ParseCustomOf(data: Props, t: string, parts: seq<string>)
    requires Read(data, "custom") == Text(t) && !PhpEmpty(t)
    requires Explode(t, '-') == parts && |parts| >= 3
    ensures ParseCustom(data)
      == Success(Custom(Unset(data, "custom"), IntCast(parts[0]), IntCast(parts[1]), IntCast(parts[2])))
  {
    hide Explode, Unset, IntCast;
  }

  /** A string holding a '-' is not empty in PHP's sense. */
  lemma DashNotEmpty(t: string)
    requires Count(t, '-') > 0
    ensures !PhpEmpty(t)
  {
    assert Count("0", '-') == 0 by {
      assert "0"[1..] == "";
    }
  }

  /** Decimal ids and '-'-free extra parts hold no '-'. */
  lemma IdsDashFree(userId: nat, courseId: nat, instanceId: nat, extra: seq<string>)
    requires forall i :: 0 <= i < |extra| ==> '-' !in extra[i]
    ensures var parts := [NatToString(userId), NatToString(courseId), NatToString(instanceId)] + extra;
      forall i :: 0 <= i < |parts| ==> '-' !in parts[i]
  {
    var parts := [NatToString(userId), NatToString(courseId), NatToString(instanceId)] + extra;
    forall i | 0 <= i < |parts| ensures '-' !in parts[i] {
      if i < 3 {
        assert AllDigits(parts[i]);
      } else {
        assert parts[i] == extra[i - 3];
      }
    }
  }

  /**
   * `custom` made of three decimal ids in the 64-bit range joined by '-',
   * followed by any further '-'-separated parts, yields exactly those ids;
   * the further parts are ignored and `custom` is removed from the record.
   */
  lemma CustomRoundTrip(data: Props, userId: nat, courseId: nat, instanceId: nat, extra: seq<string>)
    requires userId <= MaxLong && courseId <= MaxLong && instanceId <= MaxLong
    requires forall i :: 0 <= i < |extra| ==> '-' !in extra[i]
    requires Read(data, "custom")
      == Text(Implode([NatToString(userId), NatToString(courseId), NatToString(instanceId)] + extra, '-'))
    ensures ParseCustom(data) == Success(Custom(Unset(data, "custom"), userId, courseId, instanceId))
  {
    hide *;
    var parts := [NatToString(userId), NatToString(courseId), NatToString(instanceId)] + extra;
    var text := Implode(parts, '-');
    IdsDashFree(userId, courseId, instanceId, extra);
    ExplodeImplode(parts, '-');
    assert Count(text, '-') > 0;
    DashNotEmpty(text);
    ParseCustomOf(data, text, parts);
    IntCastOfNat(userId);
    IntCastOfNat(courseId);
    IntCastOfNat(instanceId);
  }

  /**
   * The checks before the gateway call can all pass: an enabled plugin and a
   * POST of a non-empty `paystack-trxref`, a `custom` naming an existing
   * user, course and enabled Paystack instance, and a `reference`.
   */
  lemma PrepareReachable(cfg: Config, host: Host, trxref: string, reference: string,
                         userId: nat, courseId: nat, instanceId: nat)
    requires cfg.enabled && !PhpEmpty(trxref)
    requires userId <= MaxLong && courseId <= MaxLong && instanceId <= MaxLong
    requires userId in host.users && courseId in host.courses && IsPaystackInstance(host, instanceId)
    ensures var custom := NatToString(userId) + "-" + NatToString(courseId) + "-" + NatToString(instanceId);
      var req := Request([(TrxrefKey, Scalar(trxref)), ("custom", Scalar(custom)), ("reference", Scalar(reference))], 0);
      && Admit(cfg, req).None?
      && Prepare(cfg, host, req).Success?
      && Prepare(cfg, host, req).value.userId == userId
      && Prepare(cfg, host, req).value.courseId == courseId
      && Prepare(cfg, host, req).value.instance == host.instances[instanceId]
      && Field(req, "reference") == Text(reference)
  {
    var ids := [NatToString(userId), NatToString(courseId), NatToString(instanceId)];
    var custom := NatToString(userId) + "-" + NatToString(courseId) + "-" + NatToString(instanceId);
    ImplodeThree(NatToString(userId), NatToString(courseId), NatToString(instanceId));
    assert ids + [] == ids;
    var req := Request([(TrxrefKey, Scalar(trxref)), ("custom", Scalar(custom)), ("reference", Scalar(reference))], 0);
    hide CopyPost, ParseCustom, Lookups, Implode, NatToString, DistinctKeys, Admissible, Read, Unset,
      CleanAlnumExt, IsIntegerKey, Field;
    CheckoutPost(trxref, custom, reference);
    CopyPostGet(req.post, "custom");
    FieldOf(req, "custom");
    CheckoutFields(req, trxref, custom, reference);
    var posted := CopyPost(req.post).value;
    CustomRoundTrip(posted, userId, courseId, instanceId, []);
    CopiedRequest(cfg, host, req);
    LookupsSucceed(host, Custom(Unset(posted, "custom"), userId, courseId, instanceId));
  }

  lemma ImplodeThree(a: string, b: string, c: string)
    ensures Implode([a, b, c], '-') == a + "-" + b + "-" + c
  {
    var parts := [a, b, c];
    assert parts[1..] == [b, c] && parts[1..][1..] == [c];
    assert Implode([c], '-') == c;
    assert Implode([b, c], '-') == b + "-" + c;
  }

  /** The POST a checkout sends: distinct names that all pass, found where they were posted. */
  lemma CheckoutPost(trxref: string, custom: string, reference: string)
    ensures var post := [(TrxrefKey, Scalar(trxref)), ("custom", Scalar(custom)), ("reference", Scalar(reference))];
      DistinctKeys(post) && (forall i :: 0 <= i < |post| ==> Admissible(post[i]))
      && Lookup(post, TrxrefKey) == Some(Scalar(trxref))
  {
    hide CleanAlnumExt, IsIntegerKey;
    NamesAccepted();
  }

  lemma CheckoutFields(req: Request, trxref: string, custom: string, reference: string)
    requires req.post == [(TrxrefKey, Scalar(trxref)), ("custom", Scalar(custom)), ("reference", Scalar(reference))]
    ensures Field(req, "custom") == Text(custom) && Field(req, "reference") == Text(reference)
  {
    var post := req.post;
    assert post[1..][1..] == [("reference", Scalar(reference))];
    assert Lookup(post[1..][1..], "reference") == Some(Scalar(reference));
    assert Lookup(post[1..], "reference") == Some(Scalar(reference));
    assert Lookup(post, "custom") == Some(Scalar(custom));
  }

  /** The three names a checkout posts pass the name check. */
  lemma NamesAccepted()
    ensures KeyAccepted(TrxrefKey) && KeyAccepted("custom") && KeyAccepted("reference")
  {
    hide CleanAlnumExt;
    NameAccepted(TrxrefKey);
    NameAccepted("custom");
    NameAccepted("reference");
  }

  /** A name that starts with a letter and holds only allowed characters passes. */
  lemma NameAccepted(k: string)
    requires |k| > 0 && IsLetter(k[0]) && forall c :: c in k ==> IsAlnumExt(c)
    ensures KeyAccepted(k)
  {
    assert !IsDigit(k[0]);
    KeyAcceptedChars(k);
  }

  /** The record lookups succeed exactly when the user, the course and an enabled Paystack instance exist. */
  lemma LookupsSucceed(host: Host, c: Custom)
    ensures Lookups(host, c).Success? <==>
      c.userId in host.users && c.courseId in host.courses && IsPaystackInstance(host, c.instanceId)
    ensures c.userId !in host.users ==> Lookups(host, c) == Failure(MissingRecord(UserTable))
    ensures c.userId in host.users && c.courseId !in host.courses ==>
      Lookups(host, c) == Failure(MissingRecord(CourseTable))
    ensures c.userId in host.users && c.courseId in host.courses && !IsPaystackInstance(host, c.instanceId) ==>
      Lookups(host, c) == Failure(MissingRecord(EnrolTable))
  {
  }

  // The amount comparison.

  /**
   * A numeric posted amount is "not enough" exactly when its value is below
   * the effective cost rounded to cents.
   */
  lemma NumericAmountCompared(a: string, v: real, cfg: Config, instance: Instance)
    requires ParseNumeric(a) == Some(v)
    ensures LooseLess(a, CostString(cfg, instance)) <==> v < Cents(EffectiveCost(cfg, instance)) as real / 100.0
  {
    CostTextValue(Cents(EffectiveCost(cfg, instance)));
  }

  /** An amount equal in value to the cost passes: the comparison is strict. */
  lemma EqualAmountPasses(a: string, cfg: Config, instance: Instance)
    requires ParseNumeric(a) == Some(Cents(EffectiveCost(cfg, instance)) as real / 100.0)
    ensures !LooseLess(a, CostString(cfg, instance))
  {
    NumericAmountCompared(a, Cents(EffectiveCost(cfg, instance)) as real / 100.0, cfg, instance);
  }

  /** The printed cost starts with a digit or a minus sign. */
  lemma CostTextStart(cents: int)
    ensures var t := CostText(cents); |t| > 0 && (IsDigit(t[0]) || t[0] == '-')
  {
    var m := if cents < 0 then -cents else cents;
    var w := NatToString(m / 100);
    assert IsDigit(w[0]);
  }

  /** A string starting with a letter is not numeric. */
  lemma LetterNotNumeric(a: string)
    requires |a| > 0 && IsLetter(a[0])
    ensures ParseNumeric(a) == None
  {
    assert SpaceSpan(a) == 0;
    assert a[0..] == a;
    assert DigitSpan(a) == 0;
  }

  /**
   * A posted amount that starts with a letter is never "not enough": PHP
   * compares it with the cost as a string, and letters sort after digits and
   * '-'. Such a request passes the amount check whatever the cost.
   */
  lemma LetterAmountPasses(a: string, cfg: Config, instance: Instance)
    requires |a| > 0 && IsLetter(a[0])
    ensures !LooseLess(a, CostString(cfg, instance))
  {
    LetterNotNumeric(a);
    CostTextStart(Cents(EffectiveCost(cfg, instance)));
  }

  // What the outcome does not depend on.

  /** The site after the enrolment a commit makes. */
  function Enrolling(host: Host, p: Prepared): (r: Host)
    ensures r == host.(enrolments := r.enrolments)
    ensures var times := EnrolmentTimes(p.instance.enrolPeriod, host.now);
      r.enrolments == host.enrolments[(p.userId, p.instance.courseId) := Window(times.0, times.1)]
  {
    var times := EnrolmentTimes(p.instance.enrolPeriod, host.now);
    host.(enrolments := host.enrolments[(p.userId, p.instance.courseId) := Window(times.0, times.1)])
  }

  /** The page a commit shows depends only on the enrolment it made, not on the record or the notifications. */
  lemma CommitPage(cfg: Config, host: Host, p: Prepared, data: Props)
    ensures Commit(cfg, host, p, data).outcome ==
      Committed(if Enrolled(Enrolling(host, p).enrolments, host.sessionUser, p.courseId, host.now)
                then Thanks(p.course.fullname) else Sorry(p.course.fullname))
  {
  }

  /** The checks before the gateway call never look at existing enrolments. */
  lemma PrepareIgnoresEnrolments(cfg: Config, host: Host, req: Request, e: map<(int, int), Window>)
    ensures Prepare(cfg, host.(enrolments := e), req) == Prepare(cfg, host, req)
  {
    hide Admit, CopyPost, ParseCustom, Lookups, Admissible, TrxrefGiven, Fill, Set;
    if Admit(cfg, req).None? && CopyPost(req.post).Success? && ParseCustom(CopyPost(req.post).value).Success? {
      LookupsIgnoresEnrolments(host, ParseCustom(CopyPost(req.post).value).value, e);
    }
  }

  lemma LookupsIgnoresEnrolments(host: Host, c: Custom, e: map<(int, int), Window>)
    ensures Lookups(host.(enrolments := e), c) == Lookups(host, c)
  {
    hide Fill, Set;
  }

  /** The checks before the gateway call never look at the notification switches. */
  lemma PrepareIgnoresMail(cfg: Config, host: Host, req: Request, students: string, admins: string)
    ensures Prepare(cfg.(mailStudents := students, mailAdmins := admins), host, req) == Prepare(cfg, host, req)
    ensures forall i: Instance :: CostString(cfg.(mailStudents := students, mailAdmins := admins), i) == CostString(cfg, i)
  {
  }

  /** The outcome of every halting branch, independent of the record. */
  lemma OutcomeShapes(cfg: Config, host: Host, req: Request, gw: Verification, p: Prepared)
    requires gw.Answer?
    ensures var data := WithGateway(p.data, gw);
      var short := "Amount paid is not enough (" + PostedAmount(req) + " < " + CostString(cfg, p.instance) + ")";
      AdminHalt(host, CurrencyNotice + PostedCurrency(req), data).outcome == Halted(CurrencyNotice + PostedCurrency(req))
      && AdminHalt(host, short, data).outcome == Halted(short)
      && AdminHalt(host, FailureNotice + gw.gatewayResponse, data).outcome == Halted(FailureNotice + gw.gatewayResponse)
  {
  }

  /**
   * The amount in the gateway's answer is stored as `tax` but never decides
   * anything: changing it leaves the outcome unchanged.
   */
  lemma GatewayAmountIgnored(cfg: Config, host: Host, req: Request, gw: Verification, amount: int)
    requires DistinctKeys(req.post) && gw.Answer?
    ensures Callback(cfg, host, req, gw.(amount := amount)).outcome == Callback(cfg, host, req, gw).outcome
  {
    match Prepare(cfg, host, req)
    case Failure(_) =>
    case Success(p) =>
      var gw2 := gw.(amount := amount);
      GatewayCall(cfg, host, req, gw, p);
      GatewayCall(cfg, host, req, gw2, p);
      if Field(req, "reference") != Null {
        hide *;
        CallbackCases(cfg, host, req, gw, p);
        CallbackCases(cfg, host, req, gw2, p);
        OutcomeShapes(cfg, host, req, gw, p);
        OutcomeShapes(cfg, host, req, gw2, p);
        CommitPage(cfg, host, p, WithGateway(p.data, gw));
        CommitPage(cfg, host, p, WithGateway(p.data, gw2));
      }
  }

  /** The notification switches only add messages after a commit; they never change the outcome. */
  lemma MailSettingsIgnored(cfg: Config, host: Host, req: Request, gw: Verification, students: string, admins: string)
    requires DistinctKeys(req.post)
    ensures var cfg2 := cfg.(mailStudents := students, mailAdmins := admins);
      Callback(cfg2, host, req, gw).outcome == Callback(cfg, host, req, gw).outcome
  {
    var cfg2 := cfg.(mailStudents := students, mailAdmins := admins);
    PrepareIgnoresMail(cfg, host, req, students, admins);
    if Prepare(cfg, host, req).Success? {
      var p := Prepare(cfg, host, req).value;
      GatewayCall(cfg, host, req, gw, p);
      GatewayCall(cfg2, host, req, gw, p);
      if Field(req, "reference") != Null && gw.Answer? {
        hide *;
        var data := WithGateway(p.data, gw);
        CallbackCases(cfg, host, req, gw, p);
        CallbackCases(cfg2, host, req, gw, p);
        OutcomeShapes(cfg, host, req, gw, p);
        CommitPage(cfg, host, p, data);
        CommitPage(cfg2, host, p, data);
      }
    }
  }

  /**
   * A commit shows the thanks page exactly when the logged-in user is the
   * payer, the `custom` course is the instance's course, and the enrolment
   * just made is already active: unlimited (a period of 0, from time 0), a
   * positive period from now, or a negative one whose end works out to 0,
   * which reads as no end.
   */
  lemma ThanksRule(cfg: Config, host: Host, req: Request, gw: Verification)
    requires DistinctKeys(req.post) && Callback(cfg, host, req, gw).outcome.Committed?
    ensures Prepare(cfg, host, req).Success?
    ensures var p := Prepare(cfg, host, req).value;
      var page := Callback(cfg, host, req, gw).outcome.page;
      var period := p.instance.enrolPeriod;
      page.course == p.course.fullname
      && (page.Thanks? <==>
            host.sessionUser == p.userId && p.courseId == p.instance.courseId
            && (if period == 0 then 0 <= host.now else 0 < period || host.now + period == 0))
  {
    hide Prepare, Callback, Commit, AdminHalt, WithGateway, CostString, LooseEquals, LooseLess, PostedCurrency, PostedAmount;
    CommittedOnlyAfterChecks(cfg, host, req, gw);
    var p := Prepare(cfg, host, req).value;
    CallbackCases(cfg, host, req, gw, p);
    CommitPage(cfg, host, p, WithGateway(p.data, gw));
  }

  // Replays.

  /**
   * Posting the same callback again after a commit: when the first page
   * thanked the logged-in user, the replay redirects with thanks and writes
   * nothing; when it was the "sorry" page (the logged-in user is not the
   * enrolled one), the replay commits again and inserts a second record.
   */
  lemma Replay(cfg: Config, host: Host, req: Request, gw: Verification)
    requires DistinctKeys(req.post) && Callback(cfg, host, req, gw).outcome.Committed?
    ensures Prepare(cfg, host, req).Success?
    ensures var p := Prepare(cfg, host, req).value;
      var first := Callback(cfg, host, req, gw);
      var again := Callback(cfg, Enrolling(host, p), req, gw);
      (first.outcome.page.Thanks? ==> again == Response(AlreadyEnrolled(p.course.fullname), []))
      && (first.outcome.page.Sorry? ==> again.outcome.Committed? && CountInserts(again.effects) == 1)
  {
    hide *;
    CommittedOnlyAfterChecks(cfg, host, req, gw);
    var p := Prepare(cfg, host, req).value;
    var host2 := Enrolling(host, p);
    PrepareIgnoresEnrolments(cfg, host, req, host2.enrolments);
    var data := WithGateway(p.data, gw);
    CallbackCases(cfg, host, req, gw, p);
    CallbackCases(cfg, host2, req, gw, p);
    CommitPage(cfg, host, p, data);
    CommitShape(cfg, host2, p, data);
  }

  /** When someone other than the payer is logged in, a commit always ends on the "sorry" page. */
  lemma OtherSessionSorry(cfg: Config, host: Host, req: Request, gw: Verification)
    requires DistinctKeys(req.post) && Callback(cfg, host, req, gw).outcome.Committed?
    requires Prepare(cfg, host, req).Success? && host.sessionUser != Prepare(cfg, host, req).value.userId
    ensures Callback(cfg, host, req, gw).outcome.page.Sorry?
  {
    hide Prepare, Callback, Commit, AdminHalt, WithGateway, CostString, LooseEquals, LooseLess, PostedCurrency, PostedAmount;
    CommittedOnlyAfterChecks(cfg, host, req, gw);
    var p := Prepare(cfg, host, req).value;
    CallbackCases(cfg, host, req, gw, p);
    CommitPage(cfg, host, p, WithGateway(p.data, gw));
  }
}
