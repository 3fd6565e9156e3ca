/** The Gmail watch lifecycle: which accounts have tokens, when an account's
    watch needs renewing, what registering a watch sends and records, the
    renewal sweep that re-registers only the accounts that need it, and the
    flag that starts and stops the background renewal. Time is integer
    milliseconds since the epoch. */
module GmailWatch {
  import opened Common

  /** A watch is renewed when less than one day (24 * 60 * 60 seconds) is
      left before it expires. */
  const RenewalMarginMs: int := 24 * 60 * 60 * 1000

  // ----- int() on a decimal string, and its inverse -----

  predicate IsDigit(c: char) {
    '0' <= c <= '9'
  }

  predicate AllDigits(s: string) {
    forall i :: 0 <= i < |s| ==> IsDigit(s[i])
  }

  /** The value of a string of decimal digits. */
  function DigitsValue(s: string): nat
    requires AllDigits(s)
  {
    if s == [] then 0 else DigitsValue(s[..|s| - 1]) * 10 + (s[|s| - 1] as int - '0' as int)
  }

  /** `int(text)` for a string: an optional sign followed by one or more
      decimal digits; anything else raises ValueError (None). */
  function ParseInt(text: string): (r: Option<int>)
    ensures r.Some? ==> text != "" && IsDigit(text[|text| - 1])
    ensures text != "" && AllDigits(text) ==> r == Some(DigitsValue(text))
  {
    if text == [] then None
    else if (text[0] == '-' || text[0] == '+') && |text| > 1 && AllDigits(text[1..]) then
      var magnitude: int := DigitsValue(text[1..]);
      Some(if text[0] == '-' then -magnitude else magnitude)
    else if AllDigits(text) then Some(DigitsValue(text))
    else None
  }

  function DigitChar(d: int): char
    requires 0 <= d < 10
  {
    ('0' as int + d) as char
  }

  /** The decimal rendering of a natural number, as Gmail writes a
      timestamp. */
  function ShowNat(n: nat): (s: string)
    ensures s != [] && AllDigits(s)
  {
    if n < 10 then [DigitChar(n)] else ShowNat(n / 10) + [DigitChar(n % 10)]
  }

  function ShowInt(n: int): string {
    if n < 0 then "-" + ShowNat(-n) else ShowNat(n)
  }

  lemma {:induction false} ShowNatValue(n: nat)
    ensures DigitsValue(ShowNat(n)) == n
  {
    if n >= 10 {
      ShowNatValue(n / 10);
      var s := ShowNat(n);
      assert s[..|s| - 1] == ShowNat(n / 10);
    }
  }

  /** Every integer written in decimal reads back as itself. */
  lemma ParseShowInt(n: int)
    ensures ParseInt(ShowInt(n)) == Some(n)
  {
    if n < 0 {
      ShowNatValue(-n);
      assert ShowInt(n)[1..] == ShowNat(-n);
    } else {
      ShowNatValue(n);
    }
  }

  // ----- the watch state file -----

  /** The `expiration` value of a watch response: a string (as Gmail sends
      it), an integer, or some other JSON value (a list or an object), of
      which only the truthiness matters. */
  datatype Expiration = ExpText(text: string) | ExpInt(n: int) | ExpOther(truthy: bool)

  predicate ExpirationTruthy(e: Expiration) {
    match e
    case ExpText(text) => text != ""
    case ExpInt(n) => n != 0
    case ExpOther(truthy) => truthy
  }

  /** `int(expiration)`; None where it raises ValueError or TypeError. */
  function ExpirationMs(e: Expiration): Option<int> {
    match e
    case ExpText(text) => ParseInt(text)
    case ExpInt(n) => Some(n)
    case ExpOther(_) => None
  }

  /** The response of `users().watch(...)`. */
  datatype WatchResponse = WatchResponse(historyId: Option<string>, expiration: Option<Expiration>)

  /** The `watchResponse` entry of a state document that is not one this
      service wrote: absent, an object, or some other value. */
  datatype WatchField = NoWatchResponse | WatchObject(response: WatchResponse) | WatchNotObject

  /** The content of an `<email>.state.json` file. */
  datatype StateDoc =
    | WatchState(emailAddress: string, projectId: string, topic: string, watchResponse: WatchResponse, lastRenewed: int)
      /** any other JSON object, `{}` included */
    | OtherObject(field: WatchField)
      /** JSON that is not an object; `empty` for `[]`, `""`, `0`, `null` and `false` */
    | NotAnObject(empty: bool)
      /** a file that does not load as JSON */
    | Unreadable

  datatype Expiry = Expired | StillValid | CheckFails

  /** The verdict on one watch response. */
  function ResponseExpiry(resp: WatchResponse, nowMs: int): Expiry {
    match resp.expiration
    case None => Expired
    case Some(e) =>
      if !ExpirationTruthy(e) then Expired
      else match ExpirationMs(e)
        case None => Expired
        case Some(ms) => if ms - nowMs < RenewalMarginMs then Expired else StillValid
  }

  /** The deadline a watch response carries, when it has a usable one. */
  function ResponseDeadline(resp: WatchResponse): Option<int> {
    if resp.expiration.Some? && ExpirationTruthy(resp.expiration.value) then ExpirationMs(resp.expiration.value) else None
  }

  /** A state document on which `is_watch_expired` raises AttributeError: a
      non-empty non-object, or an object whose `watchResponse` is not one. */
  predicate Malformed(stored: Option<StateDoc>) {
    stored.Some? &&
    match stored.value
    case NotAnObject(empty) => !empty
    case OtherObject(field) => field.WatchNotObject?
    case _ => false
  }

  /** The deadline recorded in a state document, when there is a usable one. */
  function Deadline(stored: Option<StateDoc>): Option<int> {
    if stored.None? then None
    else match stored.value
      case WatchState(_, _, _, resp, _) => ResponseDeadline(resp)
      case OtherObject(WatchObject(resp)) => ResponseDeadline(resp)
      case _ => None
  }

  /** `is_watch_expired` on the stored state file of an account (None: no
      file). A missing, unreadable or empty document, a missing or falsy
      expiration and one `int()` rejects all count as expired; a watch is
      still valid exactly when a usable deadline is at least one day away;
      the check raises exactly on a malformed document. */
  function IsWatchExpired(stored: Option<StateDoc>, nowMs: int): (r: Expiry)
    ensures r == CheckFails <==> Malformed(stored)
    ensures r == StillValid <==>
      !Malformed(stored) && Deadline(stored).Some? && Deadline(stored).value - nowMs >= RenewalMarginMs
  {
    match stored
    case None => Expired
    case Some(doc) =>
      match doc
      case Unreadable => Expired
      case NotAnObject(empty) => if empty then Expired else CheckFails
      case WatchState(_, _, _, resp, _) => ResponseExpiry(resp, nowMs)
      case OtherObject(field) =>
        match field
        case NoWatchResponse => Expired
        case WatchNotObject => CheckFails
        case WatchObject(resp) => ResponseExpiry(resp, nowMs)
  }

  /** A watch that is due stays due as time passes. */
  lemma ExpiryIsMonotone(stored: Option<StateDoc>, earlier: int, later: int)
    requires earlier <= later
    requires IsWatchExpired(stored, earlier) == Expired
    ensures IsWatchExpired(stored, later) == Expired
  {
  }

  /** A state document this service wrote never makes the check raise, and is
      valid exactly when its response's deadline is at least a day away. */
  lemma SavedStateExpiry(email: string, projectId: string, topic: string, resp: WatchResponse, lastRenewed: int, nowMs: int)
    ensures IsWatchExpired(Some(WatchState(email, projectId, topic, resp, lastRenewed)), nowMs) != CheckFails
    ensures IsWatchExpired(Some(WatchState(email, projectId, topic, resp, lastRenewed)), nowMs) == StillValid <==>
      ResponseDeadline(resp).Some? && ResponseDeadline(resp).value - nowMs >= RenewalMarginMs
  {
  }

  /** An expiration written as Gmail writes it, in decimal, is read back as
      the deadline it states. */
  lemma DecimalDeadline(historyId: Option<string>, ms: int)
    ensures ResponseDeadline(WatchResponse(historyId, Some(ExpText(ShowInt(ms))))) == Some(ms)
  {
    ParseShowInt(ms);
    assert ShowInt(ms) != "";
  }

  /** Two hours left is expired and thirty hours left is not. */
  lemma ExpiryScenario(nowMs: int)
    ensures IsWatchExpired(Some(OtherObject(WatchObject(WatchResponse(None, Some(ExpText(ShowInt(nowMs + 2 * 3600 * 1000))))))), nowMs) == Expired
    ensures IsWatchExpired(Some(OtherObject(WatchObject(WatchResponse(None, Some(ExpText(ShowInt(nowMs + 30 * 3600 * 1000))))))), nowMs) == StillValid
  {
    DecimalDeadline(None, nowMs + 2 * 3600 * 1000);
    DecimalDeadline(None, nowMs + 30 * 3600 * 1000);
  }

  // ----- accounts from token file names -----

  /** `Path(name).stem` for a name ending in ".json". */
  function Stem(name: string): (r: string)
    requires EndsWith(name, ".json")
    ensures name != ".json" ==> r + ".json" == name
  {
    if name == ".json" then name
    else
      assert name == name[..|name| - 5] + name[|name| - 5..];
      name[..|name| - 5]
  }

  /** A token file: it matches `*.json`, is not a `.state.json` file, and its
      stem contains '@'. */
  predicate IsAccountFile(name: string) {
    EndsWith(name, ".json") && !EndsWith(name, ".state.json") && '@' in Stem(name)
  }

  /** The accounts a directory listing yields, in listing order. */
  function AccountsOf(names: seq<string>): seq<string> {
    if names == [] then []
    else
      var rest := AccountsOf(names[..|names| - 1]);
      var name := names[|names| - 1];
      if IsAccountFile(name) then rest + [Stem(name)] else rest
  }

  /** `name` is the token file of `email`. */
  predicate TokenFileOf(name: string, email: string) {
    IsAccountFile(name) && Stem(name) == email
  }

  lemma AccountsOfStep(names: seq<string>, i: nat)
    requires i < |names|
    ensures AccountsOf(names[..i + 1]) ==
      AccountsOf(names[..i]) + (if IsAccountFile(names[i]) then [Stem(names[i])] else [])
  {
    assert names[..i + 1][..i] == names[..i];
  }

  /** Every token file contributes its stem. */
  lemma {:induction false} AccountsOfComplete(names: seq<string>, i: int)
    requires 0 <= i < |names| && IsAccountFile(names[i])
    ensures Stem(names[i]) in AccountsOf(names)
  {
    var prefix := names[..|names| - 1];
    if i < |names| - 1 {
      assert prefix[i] == names[i];
      AccountsOfComplete(prefix, i);
    }
  }

  /** Every listed account comes from a token file. */
  lemma {:induction false} AccountsOfSound(names: seq<string>, email: string) returns (i: int)
    requires email in AccountsOf(names)
    ensures 0 <= i < |names| && TokenFileOf(names[i], email)
  {
    var prefix := names[..|names| - 1];
    if TokenFileOf(names[|names| - 1], email) {
      i := |names| - 1;
    } else {
      i := AccountsOfSound(prefix, email);
      assert prefix[i] == names[i];
    }
  }

  /** An account is listed exactly when some token file has it as its stem. */
  lemma AccountsOfExactly(names: seq<string>, email: string)
    ensures email in AccountsOf(names) <==> exists i :: 0 <= i < |names| && TokenFileOf(names[i], email)
  {
    if email in AccountsOf(names) {
      var i := AccountsOfSound(names, email);
    }
    if exists i :: 0 <= i < |names| && TokenFileOf(names[i], email) {
      var i :| 0 <= i < |names| && TokenFileOf(names[i], email);
      AccountsOfComplete(names, i);
    }
  }

  /** Two token files with the same stem are the same file. */
  lemma StemInjective(a: string, b: string)
    requires IsAccountFile(a) && IsAccountFile(b) && Stem(a) == Stem(b)
    ensures a == b
  {
    assert '@' !in ".json";
  }

  /** A listing of distinct file names yields distinct accounts. */
  lemma {:induction false} AccountsDistinct(names: seq<string>)
    requires Distinct(names)
    ensures Distinct(AccountsOf(names))
  {
    if names != [] {
      var prefix := names[..|names| - 1];
      var name := names[|names| - 1];
      AccountsDistinct(prefix);
      var rest := AccountsOf(prefix);
      if IsAccountFile(name) {
        if Stem(name) in rest {
          var i := AccountsOfSound(prefix, Stem(name));
          StemInjective(prefix[i], name);
          assert false;
        }
        assert Distinct(rest + [Stem(name)]);
      }
    }
  }

  function StateFileName(email: string): string {
    email + ".state.json"
  }

  /** A state file written into the directory never shows up as an account. */
  lemma StateFilesAreNotAccounts(names: seq<string>, email: string)
    ensures AccountsOf(names + [StateFileName(email)]) == AccountsOf(names)
  {
    var name := StateFileName(email);
    assert (names + [name])[..|names|] == names;
    assert name[|name| - 11..] == ".state.json";
  }

  // ----- configuration -----

  datatype ServiceConfig = ServiceConfig(projectId: string, topicName: string)

  datatype ConfigError = MissingProjectOrTopic

  /** The constructor's `project_id or os.getenv("GCP_PROJECT_ID")` and
      `topic_name or os.getenv("PUBSUB_TOPIC_NAME")`, and the ValueError when
      either ends up empty. An explicit empty argument falls back to the
      environment too. */
  function ResolveServiceConfig(projectId: Option<string>, topicName: Option<string>, env: Environment)
    : (r: Result<ServiceConfig, ConfigError>)
    ensures r.Ok? ==> r.value.projectId != "" && r.value.topicName != ""
    ensures r.Ok? && Truthy(projectId) ==> r.value.projectId == projectId.value
    ensures r.Ok? && !Truthy(projectId) ==> GetEnv(env, "GCP_PROJECT_ID") == Some(r.value.projectId)
    ensures r.Ok? && Truthy(topicName) ==> r.value.topicName == topicName.value
    ensures r.Ok? && !Truthy(topicName) ==> GetEnv(env, "PUBSUB_TOPIC_NAME") == Some(r.value.topicName)
    ensures r.Err? <==>
      (!Truthy(projectId) && !Truthy(GetEnv(env, "GCP_PROJECT_ID"))) ||
      (!Truthy(topicName) && !Truthy(GetEnv(env, "PUBSUB_TOPIC_NAME")))
  {
    var p := if Truthy(projectId) then projectId else GetEnv(env, "GCP_PROJECT_ID");
    var t := if Truthy(topicName) then topicName else GetEnv(env, "PUBSUB_TOPIC_NAME");
    if Truthy(p) && Truthy(t) then Ok(ServiceConfig(p.value, t.value)) else Err(MissingProjectOrTopic)
  }

  // ----- the service -----

  /** The Pub/Sub topic a watch publishes to. */
  function TopicPath(projectId: string, topicName: string): (r: string)
    ensures StartsWith(r, "projects/")
  {
    assert ("projects/" + projectId + "/topics/" + topicName)[..9] == "projects/";
    "projects/" + projectId + "/topics/" + topicName
  }

  /** One `users().watch(userId="me", body=...)` call, made with the
      credentials of `account`. */
  datatype WatchRequest = WatchRequest(account: string, topicName: string, labelFilterBehavior: string, labelIds: seq<string>)

  /** The stored state of an account, as `get_watch_state` finds it. */
  function StoredState(states: map<string, StateDoc>, email: string): (r: Option<StateDoc>)
    ensures r.None? <==> email !in states
    ensures r.Some? ==> r.value == states[email]
  {
    if email in states then Some(states[email]) else None
  }

  predicate IsDue(states: map<string, StateDoc>, email: string, nowMs: int) {
    IsWatchExpired(StoredState(states, email), nowMs) == Expired
  }

  /** The accounts whose watch is due, in order. */
  function DueAccounts(emails: seq<string>, states: map<string, StateDoc>, nowMs: int): seq<string> {
    if emails == [] then []
    else
      var rest := DueAccounts(emails[..|emails| - 1], states, nowMs);
      if IsDue(states, emails[|emails| - 1], nowMs) then rest + [emails[|emails| - 1]] else rest
  }

  /** The due list grows by an account exactly when that account is due. */
  lemma DueAccountsStep(emails: seq<string>, i: nat, states: map<string, StateDoc>, nowMs: int)
    requires i < |emails|
    ensures DueAccounts(emails[..i + 1], states, nowMs) ==
      DueAccounts(emails[..i], states, nowMs) + (if IsDue(states, emails[i], nowMs) then [emails[i]] else [])
  {
    assert emails[..i + 1][..i] == emails[..i];
  }

  /** An account is selected for renewal exactly when it is listed and due;
      a malformed state file keeps its account out. */
  lemma {:induction false} DueAccountsExactly(emails: seq<string>, states: map<string, StateDoc>, nowMs: int, email: string)
    ensures email in DueAccounts(emails, states, nowMs) <==> email in emails && IsDue(states, email, nowMs)
  {
    if emails != [] {
      var prefix := emails[..|emails| - 1];
      DueAccountsExactly(prefix, states, nowMs, email);
      assert emails == prefix + [emails[|emails| - 1]];
    }
  }

  /** A listing of distinct file names, as a directory yields. */
  type Listing = s: seq<string> | Distinct(s) witness []

  /** The tokens directory: `<email>.json` token files and the
      `<email>.state.json` watch state files. */
  class TokenDirectory {
    const dirExists: bool
    /** The file names a scan of the directory yields, in that order. */
    const names: Listing
    /** The accounts whose token file loads as credentials. */
    const credentials: set<string>
    /** Whether a state file can be opened for writing. */
    const writable: bool
    /** Whether `json.dump` fails once the file is open (a full disk, say);
        opening with "w" has already emptied the file by then. */
    const dumpFails: bool
    /** The state files, by account. */
    var states: map<string, StateDoc>

    constructor(dirExists: bool, names: Listing, credentials: set<string>, writable: bool, dumpFails: bool,
                states: map<string, StateDoc>)
      ensures this.dirExists == dirExists && this.names == names && this.credentials == credentials
      ensures this.writable == writable && this.dumpFails == dumpFails && this.states == states
    {
      this.dirExists := dirExists;
      this.names := names;
      this.credentials := credentials;
      this.writable := writable;
      this.dumpFails := dumpFails;
      this.states := states;
    }
  }

  class GmailWatchService {
    const tokens: TokenDirectory
    const projectId: string
    const topicName: string
    /** What the watch call returns for each account; for an account not
        here the call raises. */
    const watchResponses: map<string, WatchResponse>
    /** The watch calls made so far, in order. */
    var requests: seq<WatchRequest>
    var stopRenewal: bool
    /** Whether the renewal thread is set and alive. */
    var renewalThreadAlive: bool

    constructor(tokens: TokenDirectory, config: ServiceConfig, watchResponses: map<string, WatchResponse>)
      ensures this.tokens == tokens && projectId == config.projectId && topicName == config.topicName
      ensures this.watchResponses == watchResponses
      ensures requests == [] && !stopRenewal && !renewalThreadAlive
    {
      this.tokens := tokens;
      projectId := config.projectId;
      topicName := config.topicName;
      this.watchResponses := watchResponses;
      requests := [];
      stopRenewal := false;
      renewalThreadAlive := false;
    }

    /** The accounts `get_all_user_emails` returns. */
    function Accounts(): seq<string> {
      if tokens.dirExists then AccountsOf(tokens.names) else []
    }

    /** The accounts are distinct, and are exactly the stems of the token
        files of an existing directory. */
    lemma AccountsAreTokenFiles(email: string)
      ensures Distinct(Accounts())
      ensures email in Accounts() <==>
        tokens.dirExists && exists i :: 0 <= i < |tokens.names| && TokenFileOf(tokens.names[i], email)
    {
      AccountsDistinct(tokens.names);
      AccountsOfExactly(tokens.names, email);
    }

    /** `get_all_user_emails`: scans the listing once. */
    method GetAllUserEmails() returns (emails: seq<string>)
      ensures emails == Accounts()
    {
      emails := [];
      if !tokens.dirExists {
        return;
      }
      var names := tokens.names;
      var i := 0;
      while i < |names|
        invariant 0 <= i <= |names|
        invariant emails == AccountsOf(names[..i])
      {
        var name := names[i];
        AccountsOfStep(names, i);
        if EndsWith(name, ".json") && !EndsWith(name, ".state.json") {
          var email := Stem(name);
          if '@' in email {
            emails := emails + [email];
          }
        }
        i := i + 1;
      }
      assert names[..i] == names;
    }

    /** The request body `setup_watch` sends for an account. */
    function WatchRequestFor(email: string): (r: WatchRequest)
      ensures r.account == email && StartsWith(r.topicName, "projects/")
      ensures r.topicName == TopicPath(projectId, topicName)
      ensures r.labelFilterBehavior == "INCLUDE" && r.labelIds == ["INBOX"]
    {
      WatchRequest(email, TopicPath(projectId, topicName), "INCLUDE", ["INBOX"])
    }

    /** `setup_watch` reports success exactly when the credentials load and
        the watch call returns. */
    predicate SetupSucceeds(email: string) {
      email in tokens.credentials && email in watchResponses
    }

    /** The calls `setup_watch` makes: none without credentials. */
    function SetupRequests(email: string): seq<WatchRequest> {
      if email in tokens.credentials then [WatchRequestFor(email)] else []
    }

    /** The record `save_watch_state` writes. */
    function SavedState(email: string, response: WatchResponse, nowMs: nat): (r: StateDoc)
      ensures r.WatchState? && r.emailAddress == email && r.projectId == projectId && r.topic == topicName
      ensures r.watchResponse == response && r.lastRenewed * 1000 <= nowMs < (r.lastRenewed + 1) * 1000
    {
      WatchState(email, projectId, topicName, response, nowMs / 1000)
    }

    /** What an opened state file holds after `save_watch_state`: the
        record, or a truncated file when the dump fails. */
    function WrittenState(email: string, response: WatchResponse, nowMs: nat): StateDoc {
      if tokens.dumpFails then Unreadable else SavedState(email, response, nowMs)
    }

    /** The state files after `setup_watch(email)`. */
    function AfterSetup(states: map<string, StateDoc>, email: string, nowMs: nat): map<string, StateDoc> {
      if SetupSucceeds(email) && tokens.dirExists && tokens.writable
      then states[email := WrittenState(email, watchResponses[email], nowMs)]
      else states
    }

    /** The calls made by `setup_watch` over a list of accounts. */
    function SetupRequestsAll(emails: seq<string>): seq<WatchRequest> {
      if emails == [] then []
      else SetupRequestsAll(emails[..|emails| - 1]) + SetupRequests(emails[|emails| - 1])
    }

    /** The state files after `setup_watch` over a list of accounts. */
    function SetupStatesAll(emails: seq<string>, states: map<string, StateDoc>, nowMs: nat): map<string, StateDoc> {
      if emails == [] then states
      else AfterSetup(SetupStatesAll(emails[..|emails| - 1], states, nowMs), emails[|emails| - 1], nowMs)
    }

    /** A watch call is made for an account exactly when it is in the list
        and its credentials load, whatever happens to the other accounts. */
    lemma {:induction false} SetupRequestsAllExactly(emails: seq<string>, r: WatchRequest)
      ensures r in SetupRequestsAll(emails) <==>
        r.account in emails && r.account in tokens.credentials && r == WatchRequestFor(r.account)
    {
      if emails != [] {
        var prefix := emails[..|emails| - 1];
        SetupRequestsAllExactly(prefix, r);
        assert emails == prefix + [emails[|emails| - 1]];
      }
    }

    /** After a sweep over a list of accounts, an account's state file is
        rewritten (with the fresh record, or truncated when the dump fails)
        exactly when it is in the list, its setup succeeded and the file
        could be opened; any other file is as it was. */
    lemma {:induction false} SetupStatesAllExactly(emails: seq<string>, states: map<string, StateDoc>, nowMs: nat, email: string)
      ensures StoredState(SetupStatesAll(emails, states, nowMs), email) ==
        if email in emails && SetupSucceeds(email) && tokens.dirExists && tokens.writable
        then Some(WrittenState(email, watchResponses[email], nowMs))
        else StoredState(states, email)
    {
      if emails != [] {
        var prefix := emails[..|emails| - 1];
        SetupStatesAllExactly(prefix, states, nowMs, email);
        assert emails == prefix + [emails[|emails| - 1]];
      }
    }

    /** `save_watch_state`: writes the state record. When the file cannot be
        opened nothing changes; when the dump fails after opening, the file
        is left truncated. */
    method SaveWatchState(email: string, response: WatchResponse, nowMs: nat)
      modifies tokens`states
      ensures !(tokens.dirExists && tokens.writable) ==> tokens.states == old(tokens.states)
      ensures tokens.dirExists && tokens.writable && !tokens.dumpFails ==>
        tokens.states == old(tokens.states)[email := SavedState(email, response, nowMs)]
      ensures tokens.dirExists && tokens.writable && tokens.dumpFails ==>
        tokens.states == old(tokens.states)[email := Unreadable]
    {
      if tokens.dirExists && tokens.writable {
        if tokens.dumpFails {
          tokens.states := tokens.states[email := Unreadable];
        } else {
          tokens.states := tokens.states[email := SavedState(email, response, nowMs)];
        }
      }
    }

    /** A save that fails after opening leaves a file that reads as nothing,
        so the account is due again at once; a save that completes is due
        exactly when its response's deadline is less than a day away. */
    lemma SaveOutcomeExpiry(states: map<string, StateDoc>, email: string, nowMs: nat)
      requires SetupSucceeds(email) && tokens.dirExists && tokens.writable
      ensures tokens.dumpFails ==> IsDue(AfterSetup(states, email, nowMs), email, nowMs)
      ensures !tokens.dumpFails ==>
        (IsDue(AfterSetup(states, email, nowMs), email, nowMs) <==>
         !(ResponseDeadline(watchResponses[email]).Some? &&
           ResponseDeadline(watchResponses[email]).value - nowMs >= RenewalMarginMs))
    {
      var doc := WrittenState(email, watchResponses[email], nowMs);
      assert StoredState(AfterSetup(states, email, nowMs), email) == Some(doc);
      if !tokens.dumpFails {
        SavedStateExpiry(email, projectId, topicName, watchResponses[email], nowMs / 1000, nowMs);
      }
    }

    /** `setup_watch`: without credentials, returns false and calls nothing;
        otherwise sends the watch request, and on success saves the
        response. Success does not depend on the save. */
    method SetupWatch(email: string, nowMs: nat) returns (ok: bool)
      modifies this`requests, tokens`states
      ensures ok == SetupSucceeds(email)
      ensures requests == old(requests) + SetupRequests(email)
      ensures tokens.states == AfterSetup(old(tokens.states), email, nowMs)
    {
      if email !in tokens.credentials {
        return false;
      }
      requests := requests + [WatchRequestFor(email)];
      if email !in watchResponses {
        return false;
      }
      SaveWatchState(email, watchResponses[email], nowMs);
      return true;
    }

    /** `is_watch_expired` for an account, on the current state files. */
    function WatchExpiry(email: string, nowMs: int): Expiry
      reads tokens
    {
      IsWatchExpired(StoredState(tokens.states, email), nowMs)
    }

    /** `renew_watch_for_all_users`: sets up the watch of exactly the listed
        accounts that are due, in order; an account whose check raises is
        skipped and the sweep goes on. */
    method RenewWatchForAllUsers(nowMs: nat)
      modifies this`requests, tokens`states
      ensures requests == old(requests) + SetupRequestsAll(DueAccounts(Accounts(), old(tokens.states), nowMs))
      ensures tokens.states == SetupStatesAll(DueAccounts(Accounts(), old(tokens.states), nowMs), old(tokens.states), nowMs)
    {
      var emails := GetAllUserEmails();
      AccountsDistinct(tokens.names);
      ghost var initial := tokens.states;
      ghost var due: seq<string> := [];
      var i := 0;
      while i < |emails|
        invariant 0 <= i <= |emails|
        invariant due == DueAccounts(emails[..i], initial, nowMs)
        invariant requests == old(requests) + SetupRequestsAll(due)
        invariant tokens.states == SetupStatesAll(due, initial, nowMs)
      {
        NotYetRenewed(emails, i, initial, nowMs);
        RenewStep(emails, i, initial, nowMs);
        RenewOne(emails[i], nowMs, initial);
        due := DueAccounts(emails[..i + 1], initial, nowMs);
        i := i + 1;
      }
      assert emails[..i] == emails;
    }

    /** The sweep's body for one account whose state file is as it was
        before the sweep: set up its watch iff it is due. */
    method RenewOne(email: string, nowMs: nat, ghost initial: map<string, StateDoc>)
      modifies this`requests, tokens`states
      requires StoredState(tokens.states, email) == StoredState(initial, email)
      ensures requests == old(requests) + (if IsDue(initial, email, nowMs) then SetupRequests(email) else [])
      ensures tokens.states ==
        if IsDue(initial, email, nowMs) then AfterSetup(old(tokens.states), email, nowMs) else old(tokens.states)
    {
      var check := WatchExpiry(email, nowMs);
      if check == Expired {
        var _ := SetupWatch(email, nowMs);
      }
    }

    /** During the renewal sweep, the next account's state file is still the
        one read before the sweep. */
    lemma NotYetRenewed(emails: seq<string>, i: nat, initial: map<string, StateDoc>, nowMs: nat)
      requires Distinct(emails) && i < |emails|
      ensures StoredState(SetupStatesAll(DueAccounts(emails[..i], initial, nowMs), initial, nowMs), emails[i]) ==
        StoredState(initial, emails[i])
    {
      DueAccountsExactly(emails[..i], initial, nowMs, emails[i]);
      SetupStatesAllExactly(DueAccounts(emails[..i], initial, nowMs), initial, nowMs, emails[i]);
    }

    /** One step of the renewal sweep: the calls and state files for the due
        accounts among the first i + 1 are those for the first i, followed by
        account i's setup when it is due. */
    lemma RenewStep(emails: seq<string>, i: nat, initial: map<string, StateDoc>, nowMs: nat)
      requires i < |emails|
      ensures SetupRequestsAll(DueAccounts(emails[..i + 1], initial, nowMs)) ==
        SetupRequestsAll(DueAccounts(emails[..i], initial, nowMs)) +
        (if IsDue(initial, emails[i], nowMs) then SetupRequests(emails[i]) else [])
      ensures SetupStatesAll(DueAccounts(emails[..i + 1], initial, nowMs), initial, nowMs) ==
        var before := SetupStatesAll(DueAccounts(emails[..i], initial, nowMs), initial, nowMs);
        if IsDue(initial, emails[i], nowMs) then AfterSetup(before, emails[i], nowMs) else before
    {
      var due := DueAccounts(emails[..i], initial, nowMs);
      DueAccountsStep(emails, i, initial, nowMs);
      if IsDue(initial, emails[i], nowMs) {
        assert DueAccounts(emails[..i + 1], initial, nowMs) == due + [emails[i]];
        SweepExtends(due, emails[i], initial, nowMs);
      } else {
        assert DueAccounts(emails[..i + 1], initial, nowMs) == due;
      }
    }

    /** Appending an account to a sweep appends its calls and its state
        update. */
    lemma SweepExtends(emails: seq<string>, email: string, states: map<string, StateDoc>, nowMs: nat)
      ensures SetupRequestsAll(emails + [email]) == SetupRequestsAll(emails) + SetupRequests(email)
      ensures SetupStatesAll(emails + [email], states, nowMs) == AfterSetup(SetupStatesAll(emails, states, nowMs), email, nowMs)
    {
      assert (emails + [email])[..|emails|] == emails;
    }

    /** One step of a sweep over `emails`. */
    lemma SetupAllStep(emails: seq<string>, i: nat, states: map<string, StateDoc>, nowMs: nat)
      requires i < |emails|
      ensures forall email :: email in emails[..i + 1] <==> email in emails[..i] || email == emails[i]
      ensures SetupRequestsAll(emails[..i + 1]) == SetupRequestsAll(emails[..i]) + SetupRequests(emails[i])
      ensures SetupStatesAll(emails[..i + 1], states, nowMs) == AfterSetup(SetupStatesAll(emails[..i], states, nowMs), emails[i], nowMs)
    {
      assert emails[..i + 1] == emails[..i] + [emails[i]];
    }

    /** `setup_all_watches`: one result per account, each being that
        account's setup outcome. */
    method SetupAllWatches(nowMs: nat) returns (results: map<string, bool>)
      modifies this`requests, tokens`states
      ensures forall email :: email in results <==> email in Accounts()
      ensures forall email :: email in results ==> results[email] == SetupSucceeds(email)
      ensures requests == old(requests) + SetupRequestsAll(Accounts())
      ensures tokens.states == SetupStatesAll(Accounts(), old(tokens.states), nowMs)
    {
      var emails := GetAllUserEmails();
      ghost var initial := tokens.states;
      results := map[];
      var i := 0;
      while i < |emails|
        invariant 0 <= i <= |emails|
        invariant forall email :: email in results <==> email in emails[..i]
        invariant forall email :: email in results ==> results[email] == SetupSucceeds(email)
        invariant requests == old(requests) + SetupRequestsAll(emails[..i])
        invariant tokens.states == SetupStatesAll(emails[..i], initial, nowMs)
      {
        SetupAllStep(emails, i, initial, nowMs);
        var ok := SetupWatch(emails[i], nowMs);
        results := results[emails[i] := ok];
        i := i + 1;
      }
      assert emails[..i] == emails;
    }

    /** `start_automatic_renewal`: does nothing while the renewal thread is
        alive; otherwise clears the stop flag and starts a thread. */
    method StartAutomaticRenewal()
      modifies this`stopRenewal, this`renewalThreadAlive
      ensures old(renewalThreadAlive) ==> stopRenewal == old(stopRenewal) && renewalThreadAlive
      ensures !old(renewalThreadAlive) ==> !stopRenewal && renewalThreadAlive
    {
      if renewalThreadAlive {
        return;
      }
      stopRenewal := false;
      renewalThreadAlive := true;
    }

    /** `stop_automatic_renewal`: sets the stop flag, then waits a bounded
        time for the thread; `joinedInTime` says whether it ended within
        that time. */
    method StopAutomaticRenewal(joinedInTime: bool)
      modifies this`stopRenewal, this`renewalThreadAlive
      ensures stopRenewal
      ensures renewalThreadAlive == (old(renewalThreadAlive) && !joinedInTime)
    {
      stopRenewal := true;
      if renewalThreadAlive && joinedInTime {
        renewalThreadAlive := false;
      }
    }
  }

  /** The constructor: raises ValueError (Err) when the project id or topic
      name is missing, and otherwise starts with no renewal thread. */
  method NewGmailWatchService(tokens: TokenDirectory, projectId: Option<string>, topicName: Option<string>,
                              env: Environment, watchResponses: map<string, WatchResponse>)
    returns (r: Result<GmailWatchService, ConfigError>)
    ensures r.Err? <==> ResolveServiceConfig(projectId, topicName, env).Err?
    ensures r.Ok? ==>
      fresh(r.value) && r.value.tokens == tokens && r.value.watchResponses == watchResponses &&
      ServiceConfig(r.value.projectId, r.value.topicName) == ResolveServiceConfig(projectId, topicName, env).value &&
      r.value.requests == [] && !r.value.stopRenewal && !r.value.renewalThreadAlive
  {
    match ResolveServiceConfig(projectId, topicName, env)
    case Err(e) =>
      r := Err(e);
    case Ok(config) =>
      var service := new GmailWatchService(tokens, config, watchResponses);
      r := Ok(service);
  }
}
