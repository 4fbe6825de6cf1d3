/**
 * The translation of an authentik webhook payload into a Gotify notification
 * (title, message, priority), from auth_events.go.
 *
 * The webhook body carries a record as Python-literal text behind an event
 * prefix. The translator strips the prefix, rewrites the text towards JSON
 * (single quotes to double quotes, and for a successful login the literals
 * True and False to the strings "true" and "false"), hands it to the JSON
 * decoder, and renders the decoded record. The JSON decoder and the `%f`
 * rendering of floating-point numbers are not part of this model: they are
 * supplied by a `Host`.
 */
module AuthEvents {
  import opened GoStrings

  /** A decoder's outcome: the record, or the text of the decoder's error. */
  datatype Result<T> = Ok(value: T) | Err(error: string)

  /** An IEEE 754 double, kept as its 64 bits; only the host renders it. */
  datatype Float64 = Float64(bits: bv64)

  datatype AuthentikWebhookPayload = AuthentikWebhookPayload(
    body: string,
    eventUserEmail: string,
    eventUserUsername: string,
    severity: string,
    userEmail: string,
    userUsername: string)

  datatype Asn = Asn(asn: int, asOrg: string, network: string)

  datatype Geo = Geo(lat: Float64, city: string, long: Float64, country: string, continent: string)

  datatype Stage = Stage(pk: string, app: string, name: string, modelName: string)

  datatype HttpRequest = HttpRequest(
    args: map<string, string>,
    path: string,
    httpMethod: string,
    requestId: string,
    userAgent: string)

  datatype MfaDevice = MfaDevice(pk: int, app: string, name: string, modelName: string)

  datatype AuthMethodArgs = AuthMethodArgs(mfaDevices: seq<MfaDevice>, knownDevice: string)

  datatype LoginFailedData = LoginFailedData(
    asn: Asn,
    geo: Geo,
    stage: Stage,
    username: string,
    deviceClass: string,
    password: string,
    httpRequest: HttpRequest)

  datatype LoginData = LoginData(
    asn: Asn,
    geo: Geo,
    authMethod: string,
    httpRequest: HttpRequest,
    authMethodArgs: AuthMethodArgs)

  /** What the translator returns: a Gotify title, message and priority. */
  datatype Notification = Notification(title: string, message: string, priority: int)

  /**
   * The collaborators the translator calls but this model does not define:
   * `json.Unmarshal` into each record type, and `fmt`'s `%f` verb.
   */
  datatype Host = Host(
    decodeLoginFailed: string -> Result<LoginFailedData>,
    decodeLogin: string -> Result<LoginData>,
    formatFloat: Float64 -> string)

  const LoginFailedPrefix := "login_failed: "
  const LoginPrefix := "login: "
  const ParseErrorTitle := "Error parsing login_failed data"
  const UnrecognizedTitle := "Unrecognized Event"

  const PriorityInfo := 5
  const PriorityParseError := 7
  const PriorityLoginFailed := 8

  /** Which branch of the translator a body takes. */
  datatype EventKind = LoginFailedEvent | LoginEvent | UnrecognizedEvent

  /** The dispatch on the body's prefix; the failure prefix is tested first. */
  function Classify(body: string): (k: EventKind)
    ensures k == LoginFailedEvent <==> HasPrefix(body, LoginFailedPrefix)
    ensures k == LoginEvent <==> HasPrefix(body, LoginPrefix)
    ensures k == UnrecognizedEvent <==> !HasPrefix(body, LoginFailedPrefix) && !HasPrefix(body, LoginPrefix)
  {
    PrefixesExclusive(body);
    if HasPrefix(body, LoginFailedPrefix) then LoginFailedEvent
    else if HasPrefix(body, LoginPrefix) then LoginEvent
    else UnrecognizedEvent
  }

  /** No body begins with both prefixes: their sixth characters are '_' and ':'. */
  lemma PrefixesExclusive(body: string)
    ensures !(HasPrefix(body, LoginFailedPrefix) && HasPrefix(body, LoginPrefix))
  {
    if HasPrefix(body, LoginFailedPrefix) {
      assert body[5] == LoginFailedPrefix[5] == '_';
      assert LoginPrefix[5] == ':';
      assert body[..|LoginPrefix|][5] == body[5];
    }
  }

  /**
   * The failure branch's rewriting of the embedded record: every single quote
   * becomes a double quote, and nothing else changes.
   */
  function NormalizeQuotes(fragment: string): (r: string)
    ensures |r| == |fragment|
    ensures forall i :: 0 <= i < |fragment| ==> r[i] == (if fragment[i] == '\'' then '"' else fragment[i])
    ensures '\'' !in r
    ensures '\'' !in fragment ==> r == fragment
  {
    ReplaceAllSingleChar(fragment, '\'', '"');
    ReplaceAll(fragment, "'", "\"")
  }

  /** The quote rewriting works character by character, so it distributes over concatenation. */
  lemma NormalizeQuotesConcat(x: string, y: string)
    ensures NormalizeQuotes(x + y) == NormalizeQuotes(x) + NormalizeQuotes(y)
  {
    var l, r := NormalizeQuotes(x + y), NormalizeQuotes(x) + NormalizeQuotes(y);
    forall i | 0 <= i < |l| ensures l[i] == r[i] {
      if i < |x| {
        assert (x + y)[i] == x[i];
      } else {
        assert (x + y)[i] == y[i - |x|];
      }
    }
  }

  /**
   * The success branch's rewriting: quotes as in the failure branch, then the
   * literals True and False replaced by the quoted strings "true" and "false".
   * The result holds no single quote, no True and no False.
   */
  function NormalizeLoginFragment(fragment: string): (r: string)
    ensures '\'' !in r && !Contains(r, "True") && !Contains(r, "False")
    ensures '\'' !in fragment && !Contains(fragment, "True") && !Contains(fragment, "False") ==> r == fragment
  {
    var quoted := NormalizeQuotes(fragment);
    var trues := ReplaceAll(quoted, "True", "\"true\"");
    var r := ReplaceAll(trues, "False", "\"false\"");
    LoginNormalizationClean(quoted, trues, r);
    assert '\'' !in fragment && !Contains(fragment, "True") && !Contains(fragment, "False") ==> r == fragment by {
      if '\'' !in fragment && !Contains(fragment, "True") && !Contains(fragment, "False") {
        ReplaceAllAbsent(quoted, "True", "\"true\"");
        ReplaceAllAbsent(trues, "False", "\"false\"");
      }
    }
    r
  }

  /**
   * At the leftmost True of a record with no single quote before it, the
   * rewriting emits the text before it, then "true", then the rewriting of
   * the rest.
   */
  lemma UnquotedRewritesTrue(a: string, b: string)
    requires '\'' !in a && !Contains(a, "False")
    requires forall j :: 0 <= j < |a| ==> !OccursAt(a + "True" + b, "True", j)
    ensures NormalizeLoginFragment(a + "True" + b) == a + "\"true\"" + NormalizeLoginFragment(b)
  {
    var t := "\"true\"";
    var qb := NormalizeQuotes(b);
    NormalizeQuotesConcat(a + "True", b);
    NormalizeQuotesConcat(a, "True");
    assert NormalizeQuotes(a + "True" + b) == a + "True" + qb;
    forall j | 0 <= j < |a| ensures !OccursAt(a + "True" + qb, "True", j) {
      OccursAtWithin(a + "True", qb, "True", j);
      OccursAtWithin(a + "True", b, "True", j);
    }
    ReplaceAllSplit(a, "True", qb, t);
    var tb := ReplaceAll(qb, "True", t);
    AbsentWhenFirstCharAbsent(t, "False");
    NoOccurrenceAcross(a, t, "False");
    NoOccurrenceStartingIn(a + t, tb, "False");
    ReplaceAllKeep(a + t, tb, "False", "\"false\"");
  }

  /**
   * At the leftmost False of a record with no single quote before it, the
   * rewriting emits the text before it, then "false", then the rewriting of
   * the rest.
   */
  lemma UnquotedRewritesFalse(a: string, b: string)
    requires '\'' !in a && !Contains(a, "True")
    requires forall j :: 0 <= j < |a| ==> !OccursAt(a + "False" + b, "False", j)
    ensures NormalizeLoginFragment(a + "False" + b) == a + "\"false\"" + NormalizeLoginFragment(b)
  {
    var qb := NormalizeQuotes(b);
    NormalizeQuotesConcat(a + "False", b);
    NormalizeQuotesConcat(a, "False");
    assert NormalizeQuotes(a + "False" + b) == a + "False" + qb;
    TrueStepKeepsFalse(a, qb);
    var tb := ReplaceAll(qb, "True", "\"true\"");
    forall j | 0 <= j < |a| ensures !OccursAt(a + "False" + tb, "False", j) {
      OccursAtWithin(a + "False", tb, "False", j);
      OccursAtWithin(a + "False", b, "False", j);
    }
    ReplaceAllSplit(a, "False", tb, "\"false\"");
  }

  /** The True step leaves the text before a False, and the False itself, in place. */
  lemma TrueStepKeepsFalse(a: string, qb: string)
    requires !Contains(a, "True")
    ensures ReplaceAll(a + "False" + qb, "True", "\"true\"") == a + "False" + ReplaceAll(qb, "True", "\"true\"")
  {
    AbsentWhenFirstCharAbsent("False", "True");
    NoOccurrenceAcross(a, "False", "True");
    assert a + "False" + qb == a + ("False" + qb);
    forall j | 0 <= j < |a| ensures !OccursAt(a + ("False" + qb), "True", j) {
      OccursAtWithin(a + "False", qb, "True", j);
    }
    ReplaceAllKeep(a, "False" + qb, "True", "\"true\"");
    NoOccurrenceStartingInForeign("False", qb, "True");
    ReplaceAllKeep("False", qb, "True", "\"true\"");
  }

  /** Quotes do not matter to a pattern that holds none: it occurs where it did before the rewriting. */
  lemma QuotesKeepOccurrence(x: string, p: string, j: nat)
    requires '\'' !in p && '"' !in p
    ensures OccursAt(NormalizeQuotes(x), p, j) <==> OccursAt(x, p, j)
  {
    var q := NormalizeQuotes(x);
    if j + |p| <= |x| {
      if OccursAt(x, p, j) {
        forall k | 0 <= k < |p| ensures q[j + k] == p[k] {
          assert x[j + k] == x[j..j + |p|][k];
        }
        assert q[j..j + |p|] == p;
      }
      if OccursAt(q, p, j) {
        forall k | 0 <= k < |p| ensures x[j + k] == p[k] {
          assert q[j + k] == q[j..j + |p|][k];
        }
        assert x[j..j + |p|] == p;
      }
    }
  }

  /** The login rewriting begins with the quote rewriting, so quoting first changes nothing. */
  lemma NormalizeLoginFragmentQuotesFirst(x: string)
    ensures NormalizeLoginFragment(NormalizeQuotes(x)) == NormalizeLoginFragment(x)
  {
    NormalizeQuotesIdempotent(x);
  }

  /** The quote rewriting of a + p + b, for a pattern p that holds no single quote. */
  lemma NormalizeQuotesAround(a: string, p: string, b: string)
    requires '\'' !in p
    ensures NormalizeQuotes(a + p + b) == NormalizeQuotes(a) + p + NormalizeQuotes(b)
  {
    NormalizeQuotesConcat(a + p, b);
    NormalizeQuotesConcat(a, p);
  }

  /**
   * At the leftmost True of a login record, the rewriting emits the text
   * before it with its quotes made double, then "true" in double quotes, then
   * the rewriting of the rest. The text before it holds no False.
   */
  lemma NormalizeLoginFragmentRewritesTrue(a: string, b: string)
    requires !Contains(a, "False")
    requires forall j :: 0 <= j < |a| ==> !OccursAt(a + "True" + b, "True", j)
    ensures NormalizeLoginFragment(a + "True" + b) == NormalizeQuotes(a) + "\"true\"" + NormalizeLoginFragment(b)
  {
    var qa, qb := NormalizeQuotes(a), NormalizeQuotes(b);
    NormalizeQuotesAround(a, "True", b);
    forall i: nat | i <= |qa| ensures !OccursAt(qa, "False", i) {
      QuotesKeepOccurrence(a, "False", i);
    }
    forall j | 0 <= j < |qa| ensures !OccursAt(qa + "True" + qb, "True", j) {
      QuotesKeepOccurrence(a + "True" + b, "True", j);
    }
    UnquotedRewritesTrue(qa, qb);
    NormalizeLoginFragmentQuotesFirst(a + "True" + b);
    NormalizeLoginFragmentQuotesFirst(b);
  }

  /**
   * At the leftmost False of a login record, the rewriting emits the text
   * before it with its quotes made double, then "false" in double quotes,
   * then the rewriting of the rest. The text before it holds no True.
   */
  lemma NormalizeLoginFragmentRewritesFalse(a: string, b: string)
    requires !Contains(a, "True")
    requires forall j :: 0 <= j < |a| ==> !OccursAt(a + "False" + b, "False", j)
    ensures NormalizeLoginFragment(a + "False" + b) == NormalizeQuotes(a) + "\"false\"" + NormalizeLoginFragment(b)
  {
    var qa, qb := NormalizeQuotes(a), NormalizeQuotes(b);
    NormalizeQuotesAround(a, "False", b);
    forall i: nat | i <= |qa| ensures !OccursAt(qa, "True", i) {
      QuotesKeepOccurrence(a, "True", i);
    }
    forall j | 0 <= j < |qa| ensures !OccursAt(qa + "False" + qb, "False", j) {
      QuotesKeepOccurrence(a + "False" + b, "False", j);
    }
    UnquotedRewritesFalse(qa, qb);
    NormalizeLoginFragmentQuotesFirst(a + "False" + b);
    NormalizeLoginFragmentQuotesFirst(b);
  }

  lemma LoginNormalizationClean(quoted: string, trues: string, r: string)
    requires '\'' !in quoted
    requires trues == ReplaceAll(quoted, "True", "\"true\"")
    requires r == ReplaceAll(trues, "False", "\"false\"")
    ensures '\'' !in r && !Contains(r, "True") && !Contains(r, "False")
  {
    AbsentWhenFirstCharAbsent("\"true\"", "True");
    AbsentWhenFirstCharAbsent("\"false\"", "True");
    AbsentWhenFirstCharAbsent("\"false\"", "False");
    ReplaceAllLeavesNoOccurrence(quoted, "True", "\"true\"", "True");
    ReplaceAllLeavesNoOccurrence(trues, "False", "\"false\"", "True");
    ReplaceAllLeavesNoOccurrence(trues, "False", "\"false\"", "False");
  }

  /** Rewriting an already rewritten failure record changes nothing. */
  lemma NormalizeQuotesIdempotent(fragment: string)
    ensures NormalizeQuotes(NormalizeQuotes(fragment)) == NormalizeQuotes(fragment)
  {
    var once := NormalizeQuotes(fragment);
    ContainsChar(once, '\'');
    ReplaceAllAbsent(once, "'", "\"");
  }

  /** Rewriting an already rewritten login record changes nothing. */
  lemma NormalizeLoginFragmentIdempotent(fragment: string)
    ensures NormalizeLoginFragment(NormalizeLoginFragment(fragment)) == NormalizeLoginFragment(fragment)
  {
    var once := NormalizeLoginFragment(fragment);
    ContainsChar(once, '\'');
    ReplaceAllAbsent(once, "'", "\"");
    ReplaceAllAbsent(once, "True", "\"true\"");
    ReplaceAllAbsent(once, "False", "\"false\"");
  }

  /** Title of a failed login: a fixed lead, then the username, which can be read back. */
  function LoginFailedTitle(data: LoginFailedData): (t: string)
    ensures HasPrefix(t, "Login failed for ") && TrimPrefix(t, "Login failed for ") == data.username
  {
    "Login failed for " + data.username
  }

  /**
   * Message of a failed login: the template of auth_events.go:87, piece by
   * piece. It opens with the user line, names the stage at which the login
   * failed, and closes with the request id.
   */
  function LoginFailedMessage(data: LoginFailedData, formatFloat: Float64 -> string): (m: string)
    ensures HasPrefix(m, "Login attempt failed for user: " + data.username)
    ensures Contains(m, "Failed at stage: " + data.stage.name)
    ensures EndsWith(m, "RequestID: " + data.httpRequest.requestId)
  {
    var user := "Login attempt failed for user: " + data.username;
    var middle := " \n\n"
      + "From: " + data.geo.city + ", " + data.geo.country + ", " + data.geo.continent
      + " (" + data.asn.asOrg + ", " + data.asn.network + ")\n\n"
      + "Geo:\n\n  - Long: " + formatFloat(data.geo.long) + "\n\n  - Lat: " + formatFloat(data.geo.lat) + "\n\n";
    var stage := "Failed at stage: " + data.stage.name;
    var request := "RequestID: " + data.httpRequest.requestId;
    TemplatePieces(user, middle, stage, " \n\n", request);
    user + middle + stage + " \n\n" + request
  }

  /** Title of a successful login, from the envelope alone: the username, then a fixed tail. */
  function LoginTitle(eventUserUsername: string): (t: string)
    ensures HasPrefix(t, eventUserUsername) && EndsWith(t, " just logged in")
    ensures |t| == |eventUserUsername| + |" just logged in"|
  {
    eventUserUsername + " just logged in"
  }

  /**
   * Message of a successful login: the template of auth_events.go:103, piece
   * by piece. It opens with the user line from the envelope, names the city,
   * country and continent of the decoded record, and closes with its request
   * id.
   */
  function LoginMessage(eventUserUsername: string, data: LoginData): (m: string)
    ensures HasPrefix(m, "Successful login from user: " + eventUserUsername)
    ensures Contains(m, "From: " + data.geo.city + ", " + data.geo.country + ", " + data.geo.continent)
    ensures EndsWith(m, "RequestID: " + data.httpRequest.requestId)
  {
    var user := "Successful login from user: " + eventUserUsername;
    var place := "From: " + data.geo.city + ", " + data.geo.country + ", " + data.geo.continent;
    var request := "RequestID: " + data.httpRequest.requestId;
    TemplatePieces(user, " \n\n", place, " \n\n", request);
    user + " \n\n" + place + " \n\n" + request
  }

  /** A five-piece template opens with its first piece, holds its third and closes with its last. */
  lemma TemplatePieces(a: string, b: string, c: string, d: string, e: string)
    ensures HasPrefix(a + b + c + d + e, a)
    ensures Contains(a + b + c + d + e, c)
    ensures EndsWith(a + b + c + d + e, e)
  {
    var m := a + b + c + d + e;
    assert m[..|a|] == a;
    assert m[|a| + |b|..|a| + |b| + |c|] == c;
    assert OccursAt(m, c, |a| + |b|);
    assert m[|m| - |e|..] == e;
  }

  /**
   * The text the failure branch hands to the decoder: what follows the
   * prefix, character for character, with each single quote made double.
   */
  function LoginFailedFragment(body: string): (r: string)
    ensures '\'' !in r
    ensures HasPrefix(body, LoginFailedPrefix) ==>
      && |LoginFailedPrefix| + |r| == |body|
      && forall i :: 0 <= i < |r| ==>
           r[i] == (if body[|LoginFailedPrefix| + i] == '\'' then '"' else body[|LoginFailedPrefix| + i])
  {
    NormalizeQuotes(TrimPrefix(body, LoginFailedPrefix))
  }

  /**
   * The text the success branch hands to the decoder: free of single quotes,
   * True and False, and exactly what follows the prefix when that already is.
   */
  function LoginFragment(body: string): (r: string)
    ensures '\'' !in r && !Contains(r, "True") && !Contains(r, "False")
    ensures HasPrefix(body, LoginPrefix) ==>
      var rest := body[|LoginPrefix|..];
      '\'' !in rest && !Contains(rest, "True") && !Contains(rest, "False") ==> r == rest
  {
    NormalizeLoginFragment(TrimPrefix(body, LoginPrefix))
  }

  /**
   * `ReturnGotifyMessageFromAuthentikPayload`. Every body yields a
   * notification; a decoder error is reported with priority 7, a failed login
   * with priority 8, and a successful login or an unrecognised body with 5.
   */
  function Translate(payload: AuthentikWebhookPayload, host: Host): (n: Notification)
    ensures n.priority in {PriorityInfo, PriorityParseError, PriorityLoginFailed}
    // failure branch
    ensures HasPrefix(payload.body, LoginFailedPrefix) ==>
      match host.decodeLoginFailed(LoginFailedFragment(payload.body))
      case Err(e) => n == Notification(ParseErrorTitle, e, PriorityParseError)
      case Ok(data) =>
        && n.title == "Login failed for " + data.username
        && n.priority == PriorityLoginFailed
        && n.message == LoginFailedMessage(data, host.formatFloat)
    // success branch
    ensures HasPrefix(payload.body, LoginPrefix) ==>
      match host.decodeLogin(LoginFragment(payload.body))
      case Err(e) => n == Notification(ParseErrorTitle, e, PriorityParseError)
      case Ok(data) =>
        && n.title == payload.eventUserUsername + " just logged in"
        && n.priority == PriorityInfo
        && n.message == LoginMessage(payload.eventUserUsername, data)
    // fallback
    ensures !HasPrefix(payload.body, LoginFailedPrefix) && !HasPrefix(payload.body, LoginPrefix) ==>
      n == Notification(UnrecognizedTitle, payload.body, PriorityInfo)
  {
    match Classify(payload.body)
    case LoginFailedEvent =>
      (match host.decodeLoginFailed(LoginFailedFragment(payload.body))
       case Err(e) => Notification(ParseErrorTitle, e, PriorityParseError)
       case Ok(data) => Notification(LoginFailedTitle(data), LoginFailedMessage(data, host.formatFloat), PriorityLoginFailed))
    case LoginEvent =>
      (match host.decodeLogin(LoginFragment(payload.body))
       case Err(e) => Notification(ParseErrorTitle, e, PriorityParseError)
       case Ok(data) => Notification(LoginTitle(payload.eventUserUsername), LoginMessage(payload.eventUserUsername, data), PriorityInfo))
    case UnrecognizedEvent =>
      Notification(UnrecognizedTitle, payload.body, PriorityInfo)
  }

  /**
   * The title of a successful login depends on the envelope only: two hosts
   * whose decoders both accept the record give the same title, whatever
   * records they decode.
   */
  lemma LoginTitleIgnoresRecord(payload: AuthentikWebhookPayload, host1: Host, host2: Host)
    requires HasPrefix(payload.body, LoginPrefix)
    requires host1.decodeLogin(LoginFragment(payload.body)).Ok?
    requires host2.decodeLogin(LoginFragment(payload.body)).Ok?
    ensures Translate(payload, host1).title == Translate(payload, host2).title
    ensures Translate(payload, host1).priority == Translate(payload, host2).priority == PriorityInfo
  {
    PrefixesExclusive(payload.body);
  }

  /** Priority 7 is given exactly when a recognised body fails to decode, whatever the decoders. */
  lemma DecodeErrorIsPriority7(payload: AuthentikWebhookPayload, host: Host)
    ensures Translate(payload, host).priority == PriorityParseError <==>
      || (HasPrefix(payload.body, LoginFailedPrefix) && host.decodeLoginFailed(LoginFailedFragment(payload.body)).Err?)
      || (HasPrefix(payload.body, LoginPrefix) && host.decodeLogin(LoginFragment(payload.body)).Err?)
  {
    PrefixesExclusive(payload.body);
  }

  /**
   * A decode error is reported under the fixed title, and for decoders whose
   * errors always carry text the message is not empty.
   */
  lemma DecodeErrorReported(payload: AuthentikWebhookPayload, host: Host)
    requires forall s :: host.decodeLoginFailed(s).Err? ==> |host.decodeLoginFailed(s).error| > 0
    requires forall s :: host.decodeLogin(s).Err? ==> |host.decodeLogin(s).error| > 0
    ensures Translate(payload, host).priority == PriorityParseError ==>
      Translate(payload, host).title == ParseErrorTitle && |Translate(payload, host).message| > 0
  {
    PrefixesExclusive(payload.body);
  }

  /**
   * A failure record without single quotes reaches the decoder exactly as it
   * follows the prefix, and a decoder error on it is reported with priority 7.
   */
  lemma UnquotedFailedRecordReported(host: Host, payload: AuthentikWebhookPayload, fragment: string)
    requires payload.body == LoginFailedPrefix + fragment
    requires '\'' !in fragment
    requires host.decodeLoginFailed(fragment).Err?
    ensures LoginFailedFragment(payload.body) == fragment
    ensures Translate(payload, host) == Notification(ParseErrorTitle, host.decodeLoginFailed(fragment).error, PriorityParseError)
  {
    assert HasPrefix(payload.body, LoginFailedPrefix) by {
      assert payload.body[..|LoginFailedPrefix|] == LoginFailedPrefix;
    }
    assert TrimPrefix(payload.body, LoginFailedPrefix) == fragment;
    ContainsChar(fragment, '\'');
    ReplaceAllAbsent(fragment, "'", "\"");
  }

  /** The body "login_failed: not-valid-json" is reported as a decoder error. */
  lemma InvalidFailedRecordReported(host: Host, payload: AuthentikWebhookPayload)
    requires payload.body == "login_failed: not-valid-json"
    requires host.decodeLoginFailed("not-valid-json").Err?
    requires |host.decodeLoginFailed("not-valid-json").error| > 0
    ensures Translate(payload, host).title == "Error parsing login_failed data"
    ensures Translate(payload, host).priority == 7
    ensures |Translate(payload, host).message| > 0
  {
    assert payload.body == LoginFailedPrefix + "not-valid-json";
    UnquotedFailedRecordReported(host, payload, "not-valid-json");
  }

  /** A body with neither prefix comes back as the message, unchanged. */
  lemma UnrecognizedBodyEchoed(host: Host, payload: AuthentikWebhookPayload)
    requires payload.body == "something else"
    ensures Translate(payload, host) == Notification("Unrecognized Event", "something else", 5)
  {
    assert payload.body[0] != LoginPrefix[0];
  }

  /** Text with no single quote and no T or F, so it holds no quote to rewrite and no True or False. */
  predicate Plain(s: string) {
    '\'' !in s && 'T' !in s && 'F' !in s
  }

  /** Plain text comes out of the login rewriting unchanged. */
  lemma PlainUnchanged(s: string)
    requires Plain(s)
    ensures NormalizeLoginFragment(s) == s
  {
    AbsentWhenFirstCharAbsent(s, "True");
    AbsentWhenFirstCharAbsent(s, "False");
  }

  /** The opening of a field, `'key': ` after plain text, with its quotes made double. */
  lemma QuotedKey(pre: string, key: string)
    requires Plain(pre) && Plain(key)
    ensures NormalizeQuotes(pre + "'" + key + "': ") == pre + "\"" + key + "\": "
  {
    var x, y := pre + "'" + key + "': ", pre + "\"" + key + "\": ";
    var q := NormalizeQuotes(x);
    forall i | 0 <= i < |x| ensures q[i] == y[i] {
      if i < |pre| {
        assert x[i] == pre[i] && y[i] == pre[i];
      } else if i == |pre| {
      } else if i <= |pre| + |key| {
        assert x[i] == key[i - |pre| - 1] && y[i] == key[i - |pre| - 1];
      }
    }
  }

  /** A field `'key': True` is rewritten to `"key": "true"`, and the rewriting goes on after it. */
  lemma TrueFieldRewritten(pre: string, key: string, b: string)
    requires Plain(pre) && Plain(key)
    ensures NormalizeLoginFragment(pre + "'" + key + "': True" + b)
      == pre + "\"" + key + "\": \"true\"" + NormalizeLoginFragment(b)
  {
    var a := pre + "'" + key + "': ";
    assert 'T' !in a && 'F' !in a;
    AbsentWhenFirstCharAbsent(a, "False");
    NoOccurrenceStartingInForeign(a, "True" + b, "True");
    assert a + ("True" + b) == a + "True" + b;
    calc {
      NormalizeLoginFragment(pre + "'" + key + "': True" + b);
      { assert pre + "'" + key + "': True" + b == a + "True" + b; }
      NormalizeLoginFragment(a + "True" + b);
      { NormalizeLoginFragmentRewritesTrue(a, b); }
      NormalizeQuotes(a) + "\"true\"" + NormalizeLoginFragment(b);
      { QuotedKey(pre, key); }
      pre + "\"" + key + "\": " + "\"true\"" + NormalizeLoginFragment(b);
      { assert pre + "\"" + key + "\": " + "\"true\"" == pre + "\"" + key + "\": \"true\""; }
      pre + "\"" + key + "\": \"true\"" + NormalizeLoginFragment(b);
    }
  }

  /** A field `'key': False` is rewritten to `"key": "false"`, and the rewriting goes on after it. */
  lemma FalseFieldRewritten(pre: string, key: string, b: string)
    requires Plain(pre) && Plain(key)
    ensures NormalizeLoginFragment(pre + "'" + key + "': False" + b)
      == pre + "\"" + key + "\": \"false\"" + NormalizeLoginFragment(b)
  {
    var a := pre + "'" + key + "': ";
    assert 'T' !in a && 'F' !in a;
    AbsentWhenFirstCharAbsent(a, "True");
    NoOccurrenceStartingInForeign(a, "False" + b, "False");
    assert a + ("False" + b) == a + "False" + b;
    calc {
      NormalizeLoginFragment(pre + "'" + key + "': False" + b);
      { assert pre + "'" + key + "': False" + b == a + "False" + b; }
      NormalizeLoginFragment(a + "False" + b);
      { NormalizeLoginFragmentRewritesFalse(a, b); }
      NormalizeQuotes(a) + "\"false\"" + NormalizeLoginFragment(b);
      { QuotedKey(pre, key); }
      pre + "\"" + key + "\": " + "\"false\"" + NormalizeLoginFragment(b);
      { assert pre + "\"" + key + "\": " + "\"false\"" == pre + "\"" + key + "\": \"false\""; }
      pre + "\"" + key + "\": \"false\"" + NormalizeLoginFragment(b);
    }
  }

  /**
   * A flat record of two boolean fields, single-quoted with bare booleans,
   * comes out of the login rewriting as JSON text with the booleans as
   * strings. Records of any other shape are rewritten one leftmost literal at
   * a time by NormalizeLoginFragmentRewritesTrue and
   * NormalizeLoginFragmentRewritesFalse.
   */
  lemma PythonRecordBecomesJson(k1: string, k2: string)
    requires Plain(k1) && Plain(k2)
    ensures NormalizeLoginFragment("{'" + k1 + "': True, '" + k2 + "': False}")
      == "{\"" + k1 + "\": \"true\", \"" + k2 + "\": \"false\"}"
  {
    var rest, jsonRest := ", '" + k2 + "': False}", ", \"" + k2 + "\": \"false\"}";
    calc {
      NormalizeLoginFragment("{'" + k1 + "': True, '" + k2 + "': False}");
      { assert "{'" + k1 + "': True, '" + k2 + "': False}" == "{" + "'" + k1 + "': True" + rest; }
      NormalizeLoginFragment("{" + "'" + k1 + "': True" + rest);
      { TrueFieldRewritten("{", k1, rest); }
      "{" + "\"" + k1 + "\": \"true\"" + NormalizeLoginFragment(rest);
      { LastFieldRewritten(k2); }
      "{" + "\"" + k1 + "\": \"true\"" + jsonRest;
    }
  }

  /** The last field of the record, `'key': False` and the closing brace. */
  lemma LastFieldRewritten(key: string)
    requires Plain(key)
    ensures NormalizeLoginFragment(", '" + key + "': False}") == ", \"" + key + "\": \"false\"}"
  {
    assert ", '" + key + "': False}" == ", " + "'" + key + "': False" + "}";
    FalseFieldRewritten(", ", key, "}");
    PlainUnchanged("}");
  }

  /**
   * The rewriting of a login record replaces True wherever it occurs, also
   * inside a quoted value: the value 'TrueNAS' becomes text that is no
   * longer a single JSON string.
   */
  lemma TrueInsideValueRewritten()
    ensures NormalizeLoginFragment("'TrueNAS'") == "\"\"true\"NAS\""
  {
    QuotedTrueNAS();
    TrueReplacedInTrueNAS();
    var trues := "\"\"true\"NAS\"";
    AbsentWhenFirstCharAbsent(trues, "False");
    ReplaceAllAbsent(trues, "False", "\"false\"");
  }

  lemma QuotedTrueNAS()
    ensures NormalizeQuotes("'TrueNAS'") == "\"TrueNAS\""
  {
    var q := NormalizeQuotes("'TrueNAS'");
    assert |q| == 9;
    assert q[0] == '"' && q[8] == '"';
    assert q[1..8] == "TrueNAS";
  }

  lemma TrueReplacedInTrueNAS()
    ensures ReplaceAll("\"TrueNAS\"", "True", "\"true\"") == "\"\"true\"NAS\""
  {
    var rest := "NAS\"";
    AbsentWhenFirstCharAbsent(rest, "True");
    ReplaceAllAbsent(rest, "True", "\"true\"");
    assert "TrueNAS\""[4..] == rest;
    assert HasPrefix("TrueNAS\"", "True");
    assert !HasPrefix("\"TrueNAS\"", "True");
  }
}
