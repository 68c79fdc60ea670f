/**
 * The plugin's utility class: the payment error message sent to the site
 * administrator, and the exception handler's log line and response-code
 * rule. It includes Moodle's s(), which escapes every key and value
 * written into that message.
 */
module Util {
  import opened PhpStrings
  import opened PhpNumeric
  import opened PhpObject

  // s(): htmlspecialchars() with ENT_QUOTES, then numeric character
  // references that the first step broke (`&amp;#39;` and `&amp;#x27;`) are
  // restored.

  /** The characters htmlspecialchars() with ENT_QUOTES replaces. */
  predicate IsSpecial(c: char) {
    c == '&' || c == '"' || c == '\'' || c == '<' || c == '>'
  }

  /** htmlspecialchars() with ENT_QUOTES on one character. */
  function EncodeChar(c: char): (r: string)
    ensures |r| > 0 && r[0] == (if IsSpecial(c) then '&' else c)
    ensures IsSpecial(c) ==> '&' !in r[1..]
  {
    if c == '&' then "&amp;"
    else if c == '"' then "&quot;"
    else if c == '\'' then "&#039;"
    else if c == '<' then "&lt;"
    else if c == '>' then "&gt;"
    else [c]
  }

  function HtmlSpecialChars(s: string): string {
    if |s| == 0 then "" else EncodeChar(s[0]) + HtmlSpecialChars(s[1..])
  }

  predicate NoSpecials(s: string) {
    forall i :: 0 <= i < |s| ==> !IsSpecial(s[i])
  }

  predicate IsHexDigit(c: char) {
    IsDigit(c) || 'a' <= c <= 'f' || 'A' <= c <= 'F'
  }

  predicate AllHex(s: string) {
    forall i :: 0 <= i < |s| ==> IsHexDigit(s[i])
  }

  /** Length of the leading run of hexadecimal digits. */
  function HexSpan(s: string): (n: nat)
    ensures n <= |s| && AllHex(s[..n])
    ensures n < |s| ==> !IsHexDigit(s[n])
  {
    if |s| == 0 || !IsHexDigit(s[0]) then 0
    else
      var m := HexSpan(s[1..]);
      assert s[..1 + m] == [s[0]] + s[1..][..m];
      1 + m
  }

  /** The hex run of `a + b` is exactly `a` when `b` does not start with a hex digit. */
  lemma {:induction false} HexSpanOf(a: string, b: string)
    requires AllHex(a)
    requires |b| == 0 || !IsHexDigit(b[0])
    ensures HexSpan(a + b) == |a|
  {
    if |a| > 0 {
      assert (a + b)[1..] == a[1..] + b;
      HexSpanOf(a[1..], b);
    } else {
      assert a + b == b;
    }
  }

  /**
   * Length of the text after `&#` that completes a numeric character
   * reference, `\d+;` or `x[0-9a-f]+;` in either case, or 0 when there is none.
   */
  function RefBody(u: string): (n: nat)
    ensures n <= |u|
    ensures n > 0 ==> NoSpecials(u[..n]) && u[n - 1] == ';'
  {
    if |u| == 0 then 0
    else if IsDigit(u[0]) then
      var d := DigitSpan(u);
      if d < |u| && u[d] == ';' then
        assert forall i :: 0 <= i < d ==> u[i] == u[..d][i];
        d + 1
      else 0
    else if u[0] == 'x' || u[0] == 'X' then
      var h := HexSpan(u[1..]);
      if h > 0 && 1 + h < |u| && u[1 + h] == ';' then
        assert forall i :: 1 <= i < 1 + h ==> u[i] == u[1..][..h][i - 1];
        h + 2
      else 0
    else 0
  }

  /** `&amp;#` at the start of t, the entity part matched without regard to case. */
  predicate AmpHashAt(t: string) {
    |t| >= 6 && t[0] == '&' && (t[1] == 'a' || t[1] == 'A') && (t[2] == 'm' || t[2] == 'M')
    && (t[3] == 'p' || t[3] == 'P') && t[4] == ';' && t[5] == '#'
  }

  /** preg_replace('/&amp;#(\d+|x[0-9a-f]+);/i', '&#$1;', t), scanning left to right. */
  function RestoreNumericRefs(t: string): string
    decreases |t|
  {
    if |t| == 0 then ""
    else if AmpHashAt(t) && RefBody(t[6..]) > 0 then
      var n := RefBody(t[6..]);
      "&#" + t[6..6 + n] + RestoreNumericRefs(t[6 + n..])
    else [t[0]] + RestoreNumericRefs(t[1..])
  }

  /** Moodle's s(): the string made safe to place in HTML. */
  function Escape(s: string): string {
    RestoreNumericRefs(HtmlSpecialChars(s))
  }

  /** Length of a numeric character reference `&#...;` at the start of s, or 0. */
  function RefLength(s: string): (n: nat)
    ensures n <= |s|
  {
    if |s| >= 2 && s[0] == '&' && s[1] == '#' && RefBody(s[2..]) > 0 then 2 + RefBody(s[2..]) else 0
  }

  /** s() as one left-to-right pass: references are copied, other characters encoded. */
  function EscapeScan(s: string): string
    decreases |s|
  {
    if |s| == 0 then ""
    else if RefLength(s) > 0 then s[..RefLength(s)] + EscapeScan(s[RefLength(s)..])
    else EncodeChar(s[0]) + EscapeScan(s[1..])
  }

  lemma {:induction false} HtmlSpecialCharsAppend(a: string, b: string)
    ensures HtmlSpecialChars(a + b) == HtmlSpecialChars(a) + HtmlSpecialChars(b)
  {
    if |a| == 0 {
      assert a + b == b;
    } else {
      assert (a + b)[1..] == a[1..] + b;
      HtmlSpecialCharsAppend(a[1..], b);
    }
  }

  lemma {:induction false} HtmlSpecialCharsPlain(s: string)
    requires NoSpecials(s)
    ensures HtmlSpecialChars(s) == s
  {
    if |s| > 0 {
      HtmlSpecialCharsPlain(s[1..]);
      assert s == [s[0]] + s[1..];
    }
  }

  /** The first character htmlspecialchars() produces. */
  lemma HtmlSpecialCharsFirst(u: string)
    requires |u| > 0
    ensures |HtmlSpecialChars(u)| > 0
    ensures HtmlSpecialChars(u)[0] == if IsSpecial(u[0]) then '&' else u[0]
  {
  }

  /** A reference body keeps its extent when anything follows it. */
  lemma RefBodyPrefix(u: string, w: string)
    requires RefBody(u) > 0
    ensures RefBody(u[..RefBody(u)] + w) == RefBody(u)
  {
    var n := RefBody(u);
    var v := u[..n] + w;
    if IsDigit(u[0]) {
      var d := DigitSpan(u);
      assert v == u[..d] + ([';'] + w);
      DigitSpanOf(u[..d], [';'] + w);
    } else {
      var h := HexSpan(u[1..]);
      assert v[1..] == u[1..][..h] + ([';'] + w);
      HexSpanOf(u[1..][..h], [';'] + w);
    }
  }

  /** htmlspecialchars() neither creates nor breaks a decimal reference body. */
  lemma RefBodyEncodedDigits(u: string)
    requires |u| > 0 && IsDigit(u[0])
    ensures RefBody(HtmlSpecialChars(u)) == RefBody(u)
  {
    var d := DigitSpan(u);
    var rest := HtmlSpecialChars(u[d..]);
    SpanEncoded(u, d);
    var v := u[..d] + rest;
    DigitSpanOf(u[..d], rest);
    assert v[0] == u[0];
    if d == |u| {
      assert |rest| == 0 by { assert u[d..] == ""; }
      assert |v| == d;
    } else {
      assert v[d] == rest[0];
      assert v[d] == ';' <==> u[d] == ';';
    }
  }

  /** How the reference body is read after an `x`. */
  lemma RefBodyHexShape(v: string)
    requires |v| > 0 && (v[0] == 'x' || v[0] == 'X')
    ensures var h := HexSpan(v[1..]);
      RefBody(v) == if h > 0 && 1 + h < |v| && v[1 + h] == ';' then h + 2 else 0
  {
  }

  /** Two hexadecimal reference bodies read alike when their digit runs and terminators agree. */
  lemma HexShapeEqual(u: string, v: string, h: nat)
    requires |u| > 0 && |v| > 0 && u[0] == v[0] && (u[0] == 'x' || u[0] == 'X')
    requires HexSpan(u[1..]) == h && HexSpan(v[1..]) == h
    requires 1 + h < |u| <==> 1 + h < |v|
    requires 1 + h < |u| ==> (u[1 + h] == ';' <==> v[1 + h] == ';')
    ensures RefBody(u) == RefBody(v)
  {
    RefBodyHexShape(u);
    RefBodyHexShape(v);
  }

  /** htmlspecialchars() keeps a run of hexadecimal digits and whether a `;` follows it. */
  lemma HexRunEncoded(w: string)
    ensures var h := HexSpan(w); var r := HtmlSpecialChars(w);
      HexSpan(r) == h && (h < |w| <==> h < |r|) && (h < |w| ==> (w[h] == ';' <==> r[h] == ';'))
  {
    var h := HexSpan(w);
    SpanEncoded(w, h);
    var rest := HtmlSpecialChars(w[h..]);
    assert h == |w| <==> |rest| == 0 by {
      if h == |w| { assert w[h..] == ""; }
    }
    hide RefBody, HtmlSpecialChars, HexSpan, EncodeChar;
    HexSpanOf(w[..h], rest);
    if h < |w| {
      assert (w[..h] + rest)[h] == rest[0];
    }
  }

  /** htmlspecialchars() neither creates nor breaks a hexadecimal reference body. */
  lemma RefBodyEncodedHex(u: string)
    requires |u| > 0 && (u[0] == 'x' || u[0] == 'X')
    ensures RefBody(HtmlSpecialChars(u)) == RefBody(u)
  {
    var w := u[1..];
    var v := HtmlSpecialChars(u);
    assert u == [u[0]] + w;
    HtmlSpecialCharsAppend([u[0]], w);
    assert v[1..] == HtmlSpecialChars(w);
    HexRunEncoded(w);
    hide RefBody, HtmlSpecialChars, HexSpan, EncodeChar;
    HexShapeEqual(u, v, HexSpan(w));
  }

  /** htmlspecialchars() neither creates nor breaks a reference body. */
  lemma RefBodyEncoded(u: string)
    ensures RefBody(HtmlSpecialChars(u)) == RefBody(u)
  {
    if |u| == 0 {
    } else if IsDigit(u[0]) {
      RefBodyEncodedDigits(u);
    } else if u[0] == 'x' || u[0] == 'X' {
      RefBodyEncodedHex(u);
    } else {
      HtmlSpecialCharsFirst(u);
    }
  }

  /** Encoding a string whose first k characters are plain leaves them in place and maps the rest. */
  lemma SpanEncoded(u: string, k: nat)
    requires k <= |u| && NoSpecials(u[..k])
    ensures HtmlSpecialChars(u) == u[..k] + HtmlSpecialChars(u[k..])
    ensures k < |u| ==> (|HtmlSpecialChars(u[k..])| > 0
      && HtmlSpecialChars(u[k..])[0] == (if IsSpecial(u[k]) then '&' else u[k]))
  {
    assert u == u[..k] + u[k..];
    HtmlSpecialCharsAppend(u[..k], u[k..]);
    HtmlSpecialCharsPlain(u[..k]);
    if k < |u| {
      HtmlSpecialCharsFirst(u[k..]);
    }
  }

  /** A stretch without `&` passes through the restoring step unchanged. */
  lemma {:induction false} RestorePlainPrefix(p: string, y: string)
    requires '&' !in p
    ensures RestoreNumericRefs(p + y) == p + RestoreNumericRefs(y)
  {
    if |p| > 0 {
      assert !AmpHashAt(p + y) by { assert (p + y)[0] == p[0]; }
      hide AmpHashAt, RefBody;
      assert (p + y)[1..] == p[1..] + y;
      RestorePlainPrefix(p[1..], y);
    } else {
      assert p + y == y;
    }
  }

  /** An encoded character that does not start a match passes through the restoring step unchanged. */
  lemma RestoreNoMatch(e: string, y: string)
    requires |e| > 0 && '&' !in e[1..]
    requires !(AmpHashAt(e + y) && RefBody((e + y)[6..]) > 0)
    ensures RestoreNumericRefs(e + y) == e + RestoreNumericRefs(y)
  {
    hide *;
    var t := e + y;
    assert t[1..] == e[1..] + y;
    assert e == [e[0]] + e[1..];
    RestoreStep(t);
    RestorePlainPrefix(e[1..], y);
    assert [t[0]] + (e[1..] + RestoreNumericRefs(y)) == e + RestoreNumericRefs(y);
  }

  /** Where no reference starts, the restoring step copies one character and moves on. */
  lemma RestoreStep(t: string)
    requires |t| > 0 && !(AmpHashAt(t) && RefBody(t[6..]) > 0)
    ensures RestoreNumericRefs(t) == [t[0]] + RestoreNumericRefs(t[1..])
  {
  }

  /** htmlspecialchars() on a reference breaks only its leading `&`. */
  lemma EncodeRef(s: string)
    requires RefLength(s) > 0
    ensures HtmlSpecialChars(s) == "&amp;#" + (s[2..RefLength(s)] + HtmlSpecialChars(s[RefLength(s)..]))
  {
    var m := RefLength(s);
    var body := s[2..][..m - 2];
    assert body == s[2..m];
    assert s == "&#" + (body + s[m..]);
    assert HtmlSpecialChars("&#") == "&amp;#" by {
      assert "&#"[1..] == "#" && "#"[1..] == "";
      assert HtmlSpecialChars("#") == "#";
    }
    HtmlSpecialCharsAppend("&#", body + s[m..]);
    HtmlSpecialCharsAppend(body, s[m..]);
    HtmlSpecialCharsPlain(body);
  }

  /** The restoring step turns a broken reference back into the reference. */
  lemma RestoreRef(body: string, rest: string)
    requires |body| > 0 && RefBody(body + rest) == |body|
    ensures RestoreNumericRefs("&amp;#" + (body + rest)) == "&#" + body + RestoreNumericRefs(rest)
  {
    var t := "&amp;#" + (body + rest);
    var n := |body|;
    assert t[6..] == body + rest;
    assert t[6..6 + n] == body && t[6 + n..] == rest;
    assert AmpHashAt(t);
  }

  /** A numeric reference at the front of the input comes out of s() as it went in. */
  lemma EscapeRefStep(s: string)
    requires RefLength(s) > 0
    ensures Escape(s) == s[..RefLength(s)] + Escape(s[RefLength(s)..])
  {
    var m := RefLength(s);
    assert |s| >= 2 && RefBody(s[2..]) == m - 2 > 0;
    hide RefLength, RefBody, HtmlSpecialChars, RestoreNumericRefs, AmpHashAt;
    var body := s[2..m];
    var rest := HtmlSpecialChars(s[m..]);
    EncodeRef(s);
    assert body == s[2..][..RefBody(s[2..])];
    RefBodyPrefix(s[2..], rest);
    RestoreRef(body, rest);
    assert s[..m] == "&#" + body;
  }

  /** Any other character comes out of s() encoded on its own. */
  lemma EscapeCharStep(s: string)
    requires |s| > 0 && RefLength(s) == 0
    ensures Escape(s) == EncodeChar(s[0]) + Escape(s[1..])
  {
    var e := EncodeChar(s[0]);
    var rest := HtmlSpecialChars(s[1..]);
    assert HtmlSpecialChars(s) == e + rest;
    if IsSpecial(s[0]) && AmpHashAt(e + rest) {
      assert e == "&amp;";
      assert (e + rest)[6..] == rest[1..];
      HtmlSpecialCharsFirst(s[1..]);
      assert s[1] == '#';
      assert s[1..] == [s[1]] + s[2..];
      HtmlSpecialCharsAppend([s[1]], s[2..]);
      assert rest[1..] == HtmlSpecialChars(s[2..]);
      RefBodyEncoded(s[2..]);
    }
    RestoreNoMatch(e, rest);
  }

  /** s() is the one-pass scan: references are kept, everything else is encoded. */
  lemma {:induction false} EscapeIsScan(s: string)
    ensures Escape(s) == EscapeScan(s)
    decreases |s|
  {
    if |s| > 0 {
      var m := RefLength(s);
      if m > 0 {
        EscapeRefStep(s);
        EscapeIsScan(s[m..]);
      } else {
        EscapeCharStep(s);
        EscapeIsScan(s[1..]);
      }
    }
  }

  /** The markup characters that matter in HTML. */
  predicate IsMarkup(c: char) {
    c == '<' || c == '>' || c == '"' || c == '\''
  }

  /** No character of `s` is markup. */
  predicate NoMarkup(s: string) {
    forall i :: 0 <= i < |s| ==> !IsMarkup(s[i])
  }

  lemma NoMarkupAppend(a: string, b: string)
    requires NoMarkup(a) && NoMarkup(b)
    ensures NoMarkup(a + b)
  {
    assert forall i :: |a| <= i < |a| + |b| ==> (a + b)[i] == b[i - |a|];
  }

  /** A numeric reference is `&#`, digits or hexadecimal digits and `;`: no markup. */
  lemma RefNoMarkup(s: string)
    requires RefLength(s) > 0
    ensures NoMarkup(s[..RefLength(s)])
  {
    var m := RefLength(s);
    assert forall i :: 2 <= i < m ==> s[..m][i] == s[2..][..m - 2][i - 2];
  }

  lemma EncodeCharNoMarkup(c: char)
    ensures NoMarkup(EncodeChar(c))
  {
  }

  /** The scan leaves no markup character. */
  lemma {:induction false} EscapeScanNoMarkup(s: string)
    ensures NoMarkup(EscapeScan(s))
    decreases |s|
  {
    if |s| > 0 {
      var m := RefLength(s);
      EscapeScanStep(s);
      if m > 0 {
        RefNoMarkup(s);
        EscapeScanNoMarkup(s[m..]);
        hide *;
        NoMarkupAppend(s[..m], EscapeScan(s[m..]));
      } else {
        EncodeCharNoMarkup(s[0]);
        EscapeScanNoMarkup(s[1..]);
        hide *;
        NoMarkupAppend(EncodeChar(s[0]), EscapeScan(s[1..]));
      }
    }
  }

  /** s() leaves no markup character in its result. */
  lemma EscapeNoMarkup(s: string)
    ensures NoMarkup(Escape(s))
  {
    EscapeIsScan(s);
    EscapeScanNoMarkup(s);
  }

  /** s() changes nothing in a string without special characters. */
  lemma EscapePlain(s: string)
    requires NoSpecials(s)
    ensures Escape(s) == s
  {
    HtmlSpecialCharsPlain(s);
    assert forall i :: 0 <= i < |s| ==> s[i] != '&';
    RestorePlainPrefix(s, "");
    assert s + "" == s;
  }

  lemma EncodeCharNewlines(c: char)
    ensures Count(EncodeChar(c), '\n') == Count([c], '\n')
  {
    assert [c][1..] == [];
    if IsSpecial(c) {
      var e := EncodeChar(c);
      assert forall i :: 0 <= i < |e| ==> e[i] != '\n';
      CountZero(e, '\n');
    }
  }

  /** One step of the scan. */
  lemma EscapeScanStep(s: string)
    requires |s| > 0
    ensures RefLength(s) > 0 ==> EscapeScan(s) == s[..RefLength(s)] + EscapeScan(s[RefLength(s)..])
    ensures RefLength(s) == 0 ==> EscapeScan(s) == EncodeChar(s[0]) + EscapeScan(s[1..])
  {
  }

  lemma EscapeScanEmpty()
    ensures EscapeScan("") == "" && Count("", '\n') == 0
  {
  }

  /** Joining pieces with the same number of line breaks gives the same number. */
  lemma CountJoin(a: string, b: string, x: string, y: string)
    requires Count(a, '\n') == Count(b, '\n') && Count(x, '\n') == Count(y, '\n')
    ensures Count(a + x, '\n') == Count(b + y, '\n')
  {
    CountAppend(a, x, '\n');
    CountAppend(b, y, '\n');
  }

  /** The scan neither adds nor removes line breaks. */
  lemma {:induction false} EscapeScanNewlines(s: string)
    ensures Count(EscapeScan(s), '\n') == Count(s, '\n')
    decreases |s|
  {
    hide *;
    if |s| > 0 {
      var m := RefLength(s);
      EscapeScanStep(s);
      if m > 0 {
        EscapeScanNewlines(s[m..]);
        assert s == s[..m] + s[m..];
        CountJoin(s[..m], s[..m], EscapeScan(s[m..]), s[m..]);
      } else {
        EscapeScanNewlines(s[1..]);
        assert s == [s[0]] + s[1..];
        EncodeCharNewlines(s[0]);
        CountJoin(EncodeChar(s[0]), [s[0]], EscapeScan(s[1..]), s[1..]);
      }
    } else {
      EscapeScanEmpty();
      assert s == "";
    }
  }

  /** s() neither adds nor removes line breaks. */
  lemma EscapeNewlines(s: string)
    ensures Count(Escape(s), '\n') == Count(s, '\n')
  {
    EscapeIsScan(s);
    EscapeScanNewlines(s);
  }

  /** `&#039;` is one whole numeric reference. */
  lemma QuoteRefLength()
    ensures RefLength("&#039;") == 6
  {
    assert RefBody("039;") == 4 by {
      assert DigitSpan("039;") == 3 by { DigitSpanOf("039", ";"); assert "039" + ";" == "039;"; }
    }
    assert "&#039;"[2..] == "039;";
  }

  lemma EscapeQuote()
    ensures Escape("'") == "&#039;"
  {
    EscapeIsScan("'");
    assert RefLength("'") == 0;
    assert "'"[1..] == "";
  }

  lemma EscapeQuoteRef()
    ensures Escape("&#039;") == "&#039;"
  {
    EscapeIsScan("&#039;");
    QuoteRefLength();
    assert "&#039;"[6..] == "";
    assert "&#039;"[..6] == "&#039;";
  }

  /** A quote and its numeric reference come out of s() the same. */
  lemma EscapeConflatesQuote()
    ensures Escape("'") == Escape("&#039;") == "&#039;"
  {
    hide *;
    EscapeQuote();
    EscapeQuoteRef();
  }

  // The administrator's error message.

  datatype Message = Message(userFrom: int, userTo: int, subject: string, body: string)

  const SubjectPrefix: string := "PAYSTACK PAYMENT ERROR: "
  const FailedNote: string := ": Transaction failed."

  /** One `key => value` line of the message body, without its line break. */
  function DataLine(key: string, v: Value): string {
    Escape(key) + " => " + Escape(Render(v))
  }

  /** The `key => value` lines, one per property, in property order. */
  function DataLines(data: Props): (lines: seq<string>)
    ensures |lines| == |data|
    ensures forall i :: 0 <= i < |data| ==> lines[i] == DataLine(data[i].0, data[i].1)
  {
    if |data| == 0 then [] else [DataLine(data[0].0, data[0].1)] + DataLines(data[1..])
  }

  /** The body's tail: each line followed by a line break. */
  function DataText(data: Props): string {
    if |data| == 0 then "" else DataLine(data[0].0, data[0].1) + "\n" + DataText(data[1..])
  }

  /** message_paystack_error_to_admin(): from and to the primary administrator. */
  function ErrorMessage(admin: int, site: string, subject: string, data: Props): (m: Message)
    ensures m.userFrom == admin && m.userTo == admin
    ensures |m.subject| >= |SubjectPrefix| && m.subject[..|SubjectPrefix|] == SubjectPrefix
    ensures m.subject[|SubjectPrefix|..] == subject
  {
    var m := Message(admin, admin, SubjectPrefix + subject, site + FailedNote + "\n\n" + subject + "\n\n" + DataText(data));
    assert m.subject[..|SubjectPrefix|] == SubjectPrefix;
    m
  }

  lemma ImplodeCons(p: string, rest: seq<string>, sep: char)
    requires |rest| > 0
    ensures Implode([p] + rest, sep) == p + [sep] + Implode(rest, sep)
  {
    assert ([p] + rest)[1..] == rest;
  }

  /** The data lines, joined by line breaks and closed by a final empty line, are the body's tail. */
  lemma {:induction false} DataTextImplode(data: Props)
    ensures Implode(DataLines(data) + [""], '\n') == DataText(data)
  {
    if |data| > 0 {
      DataTextImplode(data[1..]);
      assert DataLines(data) + [""] == [DataLine(data[0].0, data[0].1)] + (DataLines(data[1..]) + [""]);
      ImplodeCons(DataLine(data[0].0, data[0].1), DataLines(data[1..]) + [""], '\n');
    }
  }

  lemma {:induction false} CountZero(s: string, c: char)
    ensures Count(s, c) == 0 <==> c !in s
  {
    if |s| > 0 {
      CountZero(s[1..], c);
      assert s == [s[0]] + s[1..];
    }
  }

  /** A property whose name and printed value have no line break. */
  predicate SingleLine(key: string, v: Value) {
    '\n' !in key && '\n' !in Render(v)
  }

  /** A property without line breaks gives a data line without line breaks. */
  lemma DataLineSingle(key: string, v: Value)
    requires SingleLine(key, v)
    ensures '\n' !in DataLine(key, v)
  {
    EscapeNewlines(key);
    EscapeNewlines(Render(v));
    CountZero(key, '\n');
    CountZero(Render(v), '\n');
    CountZero(Escape(key), '\n');
    CountZero(Escape(Render(v)), '\n');
  }

  /** The message body is its lines joined by line breaks. */
  lemma BodyImplode(admin: int, site: string, subject: string, data: Props)
    ensures Implode([site + FailedNote, "", subject, ""] + DataLines(data) + [""], '\n')
         == ErrorMessage(admin, site, subject, data).body
  {
    var lines := DataLines(data) + [""];
    var parts := [site + FailedNote, "", subject, ""] + lines;
    var text := DataText(data);
    DataTextImplode(data);
    hide DataText, DataLines, Escape, Render, HtmlSpecialChars, RestoreNumericRefs, Implode, Explode;
    assert ErrorMessage(admin, site, subject, data).body == site + FailedNote + "\n\n" + subject + "\n\n" + text;
    hide *;
    ImplodeCons("", lines, '\n');
    assert parts[3..] == [""] + lines;
    ImplodeCons(subject, [""] + lines, '\n');
    assert parts[2..] == [subject] + ([""] + lines);
    ImplodeCons("", parts[2..], '\n');
    assert parts[1..] == [""] + parts[2..];
    ImplodeCons(site + FailedNote, parts[1..], '\n');
    assert parts == [site + FailedNote] + parts[1..];
    assert Implode(parts, '\n') == site + FailedNote + "\n" + ("" + "\n" + (subject + "\n" + ("" + "\n" + text)));
    assert site + FailedNote + "\n" + ("" + "\n" + (subject + "\n" + ("" + "\n" + text)))
        == site + FailedNote + "\n\n" + subject + "\n\n" + text;
    assert parts == [site + FailedNote, "", subject, ""] + DataLines(data) + [""];
  }

  /** Every piece is free of line breaks. */
  predicate NoBreaks(parts: seq<string>) {
    forall i :: 0 <= i < |parts| ==> '\n' !in parts[i]
  }

  lemma NoBreaksAppend(a: seq<string>, b: seq<string>)
    requires NoBreaks(a) && NoBreaks(b)
    ensures NoBreaks(a + b)
  {
    assert forall i :: |a| <= i < |a| + |b| ==> (a + b)[i] == b[i - |a|];
  }

  /** The lines before the data have no line breaks when the site name and subject have none. */
  lemma HeadNoBreaks(site: string, subject: string)
    requires '\n' !in site && '\n' !in subject
    ensures NoBreaks([site + FailedNote, "", subject, ""])
  {
    assert '\n' !in site + FailedNote;
  }

  /** Properties without line breaks give data lines without line breaks. */
  lemma DataLinesSingle(data: Props)
    requires forall i :: 0 <= i < |data| ==> SingleLine(data[i].0, data[i].1)
    ensures NoBreaks(DataLines(data))
  {
    forall i | 0 <= i < |data| ensures '\n' !in DataLines(data)[i] {
      DataLineSingle(data[i].0, data[i].1);
    }
  }

  /** Pieces without line breaks are recovered by splitting their join. */
  lemma LinesExplode(parts: seq<string>, body: string)
    requires |parts| >= 1 && NoBreaks(parts)
    requires Implode(parts, '\n') == body
    ensures Explode(body, '\n') == parts
  {
    ExplodeImplode(parts, '\n');
  }

  lemma EmptyLineNoBreaks()
    ensures NoBreaks([""])
  {
  }

  /** Every line of the body is free of line breaks when no input holds one. */
  lemma BodyNoBreaks(site: string, subject: string, data: Props)
    requires '\n' !in site && '\n' !in subject
    requires forall i :: 0 <= i < |data| ==> SingleLine(data[i].0, data[i].1)
    ensures NoBreaks([site + FailedNote, "", subject, ""] + DataLines(data) + [""])
  {
    hide *;
    var head := [site + FailedNote, "", subject, ""];
    HeadNoBreaks(site, subject);
    DataLinesSingle(data);
    EmptyLineNoBreaks();
    NoBreaksAppend(head, DataLines(data));
    NoBreaksAppend(head + DataLines(data), [""]);
  }

  /**
   * When no input holds a line break, the body splits into exactly these
   * lines: the site notice, a blank line, the subject, a blank line, one
   * line per property and a final empty piece after the last break.
   */
  lemma ErrorMessageLines(admin: int, site: string, subject: string, data: Props)
    requires '\n' !in site && '\n' !in subject
    requires forall i :: 0 <= i < |data| ==> SingleLine(data[i].0, data[i].1)
    ensures Explode(ErrorMessage(admin, site, subject, data).body, '\n')
         == [site + FailedNote, "", subject, ""] + DataLines(data) + [""]
  {
    hide *;
    BodyNoBreaks(site, subject, data);
    BodyImplode(admin, site, subject, data);
    LinesExplode([site + FailedNote, "", subject, ""] + DataLines(data) + [""], ErrorMessage(admin, site, subject, data).body);
  }

  // The exception handler.

  /** The response code the handler leaves: a 200 becomes 500, any other code stays. */
  function HandlerStatus(code: int): (r: int)
    ensures r != 200
    ensures code != 200 ==> r == code
  {
    if code == 200 then 500 else code
  }

  /** Applying the rule twice changes nothing more. */
  lemma HandlerStatusIdempotent(code: int)
    ensures HandlerStatus(HandlerStatus(code)) == HandlerStatus(code)
    ensures HandlerStatus(code) == 500 <==> code == 200 || code == 500
  {
  }

  const LogPrefix: string := "enrol_paystack exception handler: "

  /** What debugging mode appends: the debug information, a line break, then the backtrace. */
  function DebugSuffix(debugInfo: string, backtrace: string): string {
    " Debug: " + debugInfo + "\n" + backtrace
  }

  /** The line the handler logs; debug details and the backtrace only when debugging is on. */
  function HandlerLog(message: string, debugInfo: string, backtrace: string, debugging: bool): (r: string)
    ensures |r| >= |LogPrefix| + |message| && r[..|LogPrefix|] == LogPrefix
    ensures r[|LogPrefix|..|LogPrefix| + |message|] == message
    ensures !debugging ==> |r| == |LogPrefix| + |message|
    ensures debugging ==> r[|LogPrefix| + |message|..] == DebugSuffix(debugInfo, backtrace)
  {
    var line := LogPrefix + message;
    if debugging then line + DebugSuffix(debugInfo, backtrace) else line
  }

  /** With debugging on, the log line is the plain one followed by the debug suffix. */
  lemma HandlerLogDebugExtends(message: string, debugInfo: string, backtrace: string)
    ensures var plain := HandlerLog(message, debugInfo, backtrace, false);
      var debug := HandlerLog(message, debugInfo, backtrace, true);
      |plain| <= |debug| && debug[..|plain|] == plain
      && debug[|plain|..] == DebugSuffix(debugInfo, backtrace)
  {
  }
}
