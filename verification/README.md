# enrol_paystack in Dafny

A model of the core of the Moodle enrolment plugin `enrol_paystack`. The
plugin lets students pay for a course through the Paystack gateway. The
model covers four pieces:

- The payment callback (`verify.php`). It admits the request, copies the
  POST fields into a transaction record and parses `custom` into user,
  course and instance ids. It then loads the three records, asks the
  gateway to verify the reference, and runs the currency, amount,
  already-enrolled and payment-status checks. It ends by recording and
  enrolling, or by mailing the administrator and stopping.
- The settings form's server-side validation (`edit_form.php`).
- The settings page's create/update transform (`edit.php`).
- The helpers in `classes/util.php`: the error message to the
  administrator, with Moodle's `s()` escaping, and the silent exception
  handler's status-code and log rule. The callback registers the handler
  wrongly, so the handler never runs there (see Findings).

The PHP the core leans on is modelled alongside it:

- PHP 8 numeric strings, the `(int)` cast, and loose `==` and `<`;
- `empty()`, `explode`/`implode` and `str_replace`;
- `round`/`number_format` to two decimals;
- `htmlspecialchars`;
- a `stdClass` object as an ordered property list.

Files, one module each:

- `wrappers.dfy`: the `Option` and `Result` types.
- `php_strings.dfy`: digits, integer printing, explode/implode, `str_replace` and strcmp order.
- `php_numeric.dfy`: the numeric-string grammar, casts, loose comparison and two-decimal formatting.
- `php_object.dfy`: property get, set and unset.
- `records.dfy`: course and `enrol` rows, and enrolment windows.
- `util.dfy`: `classes/util.php`.
- `verify.dfy`: the callback.
- `verify_properties.dfy`: what the callback guarantees over all inputs.
- `edit_form.dfy`: `validation()`.
- `edit.dfy`: `edit.php`.

The callback is a pure function. It takes four inputs:

- the plugin settings;
- a snapshot of the site (users, courses, `enrol` rows, administrators,
  the logged-in user, existing enrolment windows, the clock);
- the request;
- the gateway's reply to the verify call: a decoded answer, a connection
  failure, or a body that is not JSON.

It returns how the page ends together with the list of effects, in
order. The effects are admin mail, the success log, the record insert,
the enrolment and the notifications.

An exception becomes `Rejected(reason, status)`. `verify.php:42` registers
the factory `util::get_exception_handler` rather than the closure it
returns. PHP then calls the factory on an uncaught exception, which only
builds the closure. So the status is whatever the page set before
throwing: 503 for a disabled plugin, 400 for a malformed request, and the
default 200 for every later exception. `IntendedCallback` is the same page
with the closure installed, which turns those 200s into 500.

The gateway call can itself end the page in an exception:

- a request without `reference` passes null to the `string` parameter of
  `verify_transaction`;
- the HTTP request can fail;
- the reply may not decode to a JSON object, which breaks the `array`
  return type.

The model follows the code as written:

- The currency and amount checks compare the fields the client posted
  (`currency_code`, `amount`). They use PHP 8 loose comparison. The
  amount the gateway reports is only stored, as `tax`.
- The already-enrolled check and the final page use the logged-in user,
  not the payer named in `custom`.

The lemmas make these visible:

- `GatewayAmountIgnored`: the gateway's amount never changes the outcome.
- `LetterAmountPasses`: a posted amount starting with a letter always
  passes the amount check, because PHP then compares the two strings byte
  by byte.
- `OtherSessionSorry`: when the logged-in user is not the payer, a commit
  ends on the "sorry" page.
- `Replay`: replaying such a callback commits a second record.

## Model

| member | source | states |
|---|---|---|
| Verify.ResponseCode | verify.php:42-53 | A disabled plugin ends with 503 and a malformed request with 400. Every other exception leaves the default 200, because the registered factory never runs the handler. |
| Verify.IntendedResponseCode | classes/util.php:75-77 | The status the handler was written to leave: never 200; 503 and 400 stay as set, and every other exception gets 500. |
| VerifyProperties.UnhandledStatus | verify.php:42 | Every rejection carries the status set before the exception: 200 exactly for the reasons after the first two checks. The intended callback turns exactly those into 500. |
| VerifyProperties.MissingTrxrefAnswers200 | verify.php:42 | A request without `paystack-trxref` ends with status 200, where the handler the page means to install would give 500. |
| Verify.IntendedCallback | classes/util.php:65-80 | With the handler installed, the page ends the same way except that a rejection never carries status 200; reason and effects are unchanged. |
| Util.HandlerStatus | classes/util.php:75-77 | The handler never leaves 200, and leaves every other status code as it found it. |
| Util.HandlerStatusIdempotent | classes/util.php:75-77 | Applying the rule twice changes nothing more; it yields 500 exactly for 200 and 500. |
| Util.HandlerLog | classes/util.php:69-73 | The log line is the fixed prefix followed by the message. Without debugging it is nothing more; with debugging the rest is " Debug: ", the debug information, a line break and the backtrace. |
| Util.HandlerLogDebugExtends | classes/util.php:69-72 | With debugging on, the log line is the plain one followed by exactly the debug suffix. |
| Util.ErrorMessage | classes/util.php:40-53 | The message goes from and to the primary administrator; its subject is "PAYSTACK PAYMENT ERROR: " followed by the notice. |
| Util.ErrorMessageLines | classes/util.php:42-45 | When no input holds a line break, the body splits into the site line, a blank line, the subject, a blank line, then one `key => value` line per record property in order, then an empty tail. |
| Util.DataLines | classes/util.php:43-45 | One line per property, in property order, each the escaped key and escaped value. |
| Util.EscapeNoMarkup | classes/util.php:44 | `s()` leaves no `<`, `>`, `"` or `'` in its output, so a posted value cannot inject markup. |
| Util.EscapePlain | classes/util.php:44 | `s()` changes nothing in text without special characters. |
| Util.EscapeNewlines | classes/util.php:44 | `s()` neither adds nor removes line breaks, so every property stays on one line of the message. |
| Util.EscapeConflatesQuote | classes/util.php:44 | `s()` maps a quote and its numeric reference `&#039;` to the same text. |
| Util.RestoreRef | classes/util.php:44 | A numeric reference broken by htmlspecialchars is restored to the reference itself. |
| Verify.Lookup | verify.php:55 | The first entry under the name: found at a position with no earlier entry of that name, and absent exactly when no entry has that name. |
| Verify.Admit | verify.php:45-57 | The pre-checks pass exactly when the plugin is enabled, the POST is non-empty, there is no query string, and the first `paystack-trxref` is a non-empty string or an array that keeps an entry. They fail only as disabled, malformed request, missing trxref or empty trxref; the trxref is missing exactly when no entry has that name. |
| VerifyProperties.DisabledRejected | verify.php:45-48 | A disabled plugin rejects every request with 503 and no effects. |
| VerifyProperties.MalformedRejected | verify.php:51-54 | An empty POST or any query parameter is rejected with 400 and no effects. |
| VerifyProperties.TrxrefRequired | verify.php:55-57 | A missing `paystack-trxref`, or one PHP considers empty (an empty or "0" string, or an empty array), ends the request before any field is copied, with no effects and status 200. |
| Verify.CleanAlnumExtFixed | verify.php:62 | Cleaning with PARAM_ALPHANUMEXT leaves a name unchanged exactly when every character is a letter, digit, `_` or `-`. |
| VerifyProperties.KeyAcceptedChars | verify.php:62 | A name that is not an integer key passes exactly when every character is allowed. |
| VerifyProperties.IntegerNameRejected | verify.php:62 | A decimal name such as "5" becomes an integer array key and is refused by the strict comparison, though cleaning keeps it. |
| Verify.CopyPost | verify.php:61-69 | The copy succeeds exactly when every entry has an accepted name and a scalar value; otherwise it fails with the error of some first bad entry. |
| VerifyProperties.BadEntryRejected | verify.php:61-67 | The first bad entry rejects the request with status 200. The reason names a bad name before an array value. |
| VerifyProperties.CopyPostGet | verify.php:61-69 | After a successful copy every record property reads as the posted field of that name, and a field that was not posted reads as null. |
| Verify.ParseCustom | verify.php:72-84 | A parsed `custom` is removed from the record; parsing fails only as missing or invalid `custom`. |
| VerifyProperties.CustomMissingRejected | verify.php:72-74 | A missing or empty `custom` rejects the request with status 200 and no effects. |
| VerifyProperties.CustomShortRejected | verify.php:75-79 | A non-empty `custom` with fewer than two `-` rejects the request with status 200 and no effects. |
| VerifyProperties.CustomRoundTrip | verify.php:75-84 | Three decimal ids within the 64-bit range, joined by `-` and followed by any further parts, parse back to exactly those ids; `custom` leaves the record. |
| PhpNumeric.IntCastOfNat | verify.php:82-84 | The `(int)` cast reads back a printed natural number up to PHP_INT_MAX. Above it the cast saturates at PHP_INT_MAX, and from the double overflow point on it gives 0. |
| PhpNumeric.IntCast | verify.php:82-84 | The cast always lies in the 64-bit range, and a string with no leading number casts to 0. |
| VerifyProperties.FillRead | verify.php:82-87 | Filling sets the three ids, copies `amount` to `payment_gross` and `currency_code` to `payment_currency`, sets `timeupdated`, and leaves every other property alone. |
| Verify.Lookups | verify.php:90-101 | The lookups fail only with a missing record; on success the user, course and an enabled Paystack instance exist and the record carries the course name. |
| VerifyProperties.LookupsSucceed | verify.php:90-101 | The lookups succeed exactly when the user, the course and an enabled Paystack instance exist, and otherwise name the first missing table. |
| VerifyProperties.PrepareReachable | verify.php:45-101 | Every check before the gateway call can pass. An enabled plugin, with a POST of a non-empty `paystack-trxref`, a `custom` naming an existing user, course and enabled Paystack instance, and a `reference`, is prepared with those ids and instance. |
| VerifyProperties.PreparedRead | verify.php:60-98 | Before the gateway is asked, every posted property the page does not assign still reads as posted, `payment_gross` is the posted `amount`, and `item_name` is the course name. |
| VerifyProperties.GatewayRead | verify.php:117-119 | Storing the gateway's answer sets `tax` to its amount over 100, `memo` to its response text and `payment_status` to its status, and nothing else. |
| VerifyProperties.DecisionInputs | verify.php:117-140 | The currency and amount compared are the posted ones; the status and memo are the gateway's. |
| VerifyProperties.SuccessIsExact | verify.php:153 | The loose comparison with "success" is plain equality. |
| VerifyProperties.GatewayCall | verify.php:105-109 | With no posted `reference`, a failed connection or a reply that is not JSON, the page is rejected with status 200 and no effects; otherwise the gateway's answer decides. |
| VerifyProperties.CallbackCases | verify.php:109-251 | The full decision once the gateway answered, in the page's order: gateway status, currency, amount, already enrolled, payment status. |
| VerifyProperties.GatewayFailureHalts | verify.php:112-114 | A gateway answer with a false status ends the page with its message and no effects. |
| VerifyProperties.CurrencyMismatchHalts | verify.php:123-127 | A posted currency not loosely equal to the instance's mails the admin the notice and the record, then halts without writing. |
| VerifyProperties.AmountShortHalts | verify.php:130-144 | A posted amount loosely below the formatted cost mails the admin and halts without writing. |
| VerifyProperties.NumericAmountCompared | verify.php:130-140 | A numeric posted amount is too low exactly when its value is below the effective cost rounded to cents; the default cost applies when the instance's is not positive. |
| VerifyProperties.EqualAmountPasses | verify.php:140 | An amount equal to the cost passes, because the comparison is strict. |
| VerifyProperties.LetterAmountPasses | verify.php:140 | A posted amount starting with a letter always passes the amount check. |
| VerifyProperties.AlreadyEnrolledRedirects | verify.php:149-151 | When the checks pass and the logged-in user is enrolled, the page redirects with thanks and writes nothing, whatever the status. |
| VerifyProperties.SuccessCommits | verify.php:153-168 | When every check passes and the status is "success", the page logs the reference, inserts the record once and enrols the payer once, with the instance's role for its period, or unlimited when the period is 0. |
| VerifyProperties.CommitShape | verify.php:155-168 | A commit's first three effects are the log, the insert and the enrolment, with exactly one insert and one enrolment. |
| Verify.AdminNotices | verify.php:215-233 | One notification per administrator, in order. |
| VerifyProperties.NotificationsOnly | verify.php:171-234 | The effects after the enrolment are only the student's and the administrators' notifications; they write nothing. |
| VerifyProperties.UnsuccessfulHalts | verify.php:235-240 | Any other status mails the admin the failure notice followed by the gateway's response text, and halts without writing. |
| VerifyProperties.AdminHaltShape | verify.php:123-127 | A halt after mailing the admin carries exactly one message, from and to the primary admin, and writes nothing. |
| VerifyProperties.ThanksRule | verify.php:242-251 | A commit thanks the user exactly when the logged-in user is the payer, the `custom` course is the instance's course, and the new enrolment is already active. Active means unlimited, a positive period, or a negative one ending at 0. Both pages name the course. |
| VerifyProperties.OtherSessionSorry | verify.php:242-251 | When the logged-in user is not the payer, a commit ends on the "sorry" page. |
| VerifyProperties.CallbackWrites | verify.php:45-251 | Over all inputs there is at most one insert, and as many enrolments as inserts. There is an insert exactly when the page commits, and a rejected or already-enrolled request has no effects. A request is rejected exactly when a check before the gateway fails, `reference` is missing, or the gateway gave no answer. |
| VerifyProperties.CommittedOnlyAfterChecks | verify.php:105-156 | A commit happens only after the gateway answered with a true status, the currency and amount checks passed, the user was not enrolled, and the status was "success". |
| VerifyProperties.AlreadyEnrolledOnlyAfterChecks | verify.php:105-151 | The thanks redirect without writing only comes after the gateway answered with a true status and the currency and amount checks passed. |
| VerifyProperties.GatewayAmountIgnored | verify.php:117-144 | The amount in the gateway's answer never changes the outcome. |
| VerifyProperties.MailSettingsIgnored | verify.php:171-234 | The notification switches never change the outcome. |
| VerifyProperties.Replay | verify.php:149-168 | After a commit that showed thanks, replaying the same callback redirects and writes nothing; after one that showed "sorry", the replay commits and inserts again. |
| EditForm.Validation | edit_form.php:122-141 | The base errors are kept, with an `enrolenddate` error added when a set end date precedes the start date and a `cost` error when the cost is not numeric; no other key is added. |
| EditForm.ValidationPasses | edit_form.php:122-141 | Starting from no errors, the form passes exactly when the end date is unset or not before the start date and the cost reads as a number. |
| EditForm.EndDateRule | edit_form.php:130-132 | The date error appears exactly when the end date is set and strictly before the start date; an unset or equal end date is accepted. |
| EditForm.LocalDecimalAccepted | edit_form.php:135-136 | A cost written with the language's decimal separator, or with a point, is accepted. |
| EditForm.ForeignMarkRejected | edit_form.php:135-138 | A cost holding a character no number contains, other than the separator, is rejected (for example "1,000" where the separator is a point). |
| Edit.Matching | edit.php:57-58 | The rows considered are exactly those with the course, the Paystack plugin and the instance id. |
| Edit.LoadInstance | edit.php:56-58 | A loaded instance is a row of the table matching all three conditions. |
| Edit.LoadRule | edit.php:56-58 | With an instance id the page stops unless exactly one row matches. |
| Edit.Updated | edit.php:78-89 | An updated instance holds the nine submitted settings and the current time, and keeps its id, course and plugin. |
| Edit.UpdateRule | edit.php:76-95 | Saving over an existing instance writes it back with the submitted settings, and marks the course context dirty exactly when the status changed. |
| Edit.UpdateIdempotent | edit.php:78-89 | Saving the same form again changes nothing but the time, and is never a status change. |
| Edit.AddRule | edit.php:97-110 | Without an instance id, a valid form adds one instance with exactly the nine submitted settings, and the page redirects. |
| Edit.CancelWritesNothing | edit.php:73-74 | Cancelling writes nothing and never shows the form. |
| Edit.WritesOnlyWhenSaved | edit.php:45-114 | A write happens only for an existing course with the plugin enabled and a valid submitted form; the page then redirects. |
| Edit.StoredSettingsValid | edit.php:75-110 | Every stored settings record passed validation: its end date is unset or not before its start date, and its typed cost was a number. |
| Edit.AtMostOneRecord | edit.php:75-110 | One request creates or changes at most one instance. |

## Left out

- Floating point: costs and amounts are exact rationals. `format_float`
  and `number_format` round half away from zero on the exact value. The
  64-bit range appears where PHP applies it: which POST names become
  integer keys, and the saturation of the `(int)` cast. A number read as a
  double is not rounded to 53 bits before the cast, so `(int)` of a
  fractional or exponent form beyond 2^53 is exact in the model.
- `require_login()` and the capability checks are not modelled. Neither
  is `set_url`, the page context, or any page or form output:
  `definition()`, the headers, and the texts of `notice()`,
  `redirect()` and the "sorry" page.
- `required_param` is modelled only for what the check reads. An array
  parameter is kept only as its number of entries, and nested arrays are
  not modelled.
- `fix_utf8` is the identity: strings are sequences of characters with no
  encoding.
- How PHP builds `$_POST`: name mangling (`.` and spaces become `_`) and
  the dropping of empty names happen before the page runs. The model
  starts from the resulting entries.
- The Paystack HTTP client (`classes/paystack.php`) is not part of this
  model. The reply to the verify call is an input, and the success log is
  an effect. A decoded answer is taken to have its `status`, `message` and
  `data` fields. An answer missing one of them, which PHP reads as null
  with a warning, is not modelled.
- `format_string` is the identity on course names.
- Messages are effects, not delivered mail. The teacher notification
  never fires, because `$teacher` is never set in `verify.php`, so it is
  absent.
- `time()` is read once per request, as `now`, although `verify.php`
  calls it twice.
- Enrolments are windows keyed by user and course. `is_enrolled()` is
  "an active window for the logged-in user in that course". User-enrolment
  status and other enrolment methods are not modelled.
- `unformat_float` is not part of this model. The settings page takes it
  as a function parameter.
- The HTTP status is taken to be 200 when the page starts. The page sets
  503 or 400 itself before the first two exceptions.
- Edit.Edit: the base form's own element rules are not modelled. Neither
  is `moodleform::validation`, which reports no errors. `get_data()`
  returns the form exactly when `validation()` adds nothing.
- EditForm.Validation: the language's decimal separator is taken to be
  one character.

## Findings

| source | as written | input that shows it | evidently intended | confidence | as-written member | corrected member |
|---|---|---|---|---|---|---|
| verify.php:42 | `set_exception_handler` is given the factory `util::get_exception_handler` instead of the closure it returns. On an uncaught exception PHP calls the factory, which only builds the closure, so the status rule and the log line of classes/util.php:65-80 never run. | A POST without `paystack-trxref` (`MissingTrxrefAnswers200`): the page ends with status 200. | Register the closure, `set_exception_handler(\enrol_paystack\util::get_exception_handler())`, so that no exception leaves status 200. | not executed | Verify.ResponseCode | Verify.IntendedCallback |
