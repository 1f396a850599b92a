/**
 * SNSHandler: the forward decision and the construction of the outbound message for one
 * stored email (processEmail), and the loop over the notification records that stops at
 * the first failure (handleRequest).
 */
module SNSHandler {
  import opened Nullable
  import opened StringUtils
  import opened EmailUtils

  /** The environment variables processEmail reads; each may be unset (`None`). */
  datatype Config = Config(
    smtpHost: Option<string>,
    smtpPort: Option<string>,
    smtpUser: Option<string>,
    smtpPassword: Option<string>,
    from: Option<string>,
    destination: Option<string>,
    subject: Option<string>,
    content: Option<string>,
    contentIgnoreMessage: Option<string>)

  /** An InternetAddress: optional display name and the address proper. */
  datatype Address = Address(personal: Option<string>, email: string)

  /**
   * The parsed inbound message: Subject and From/To headers (each may be absent), the full
   * Content-Type header value, and the MIME tree whose root content getContent() returns.
   */
  datatype Message = Message(
    subject: Option<string>,
    from: Option<seq<Address>>,
    to: Option<seq<Address>>,
    contentType: string,
    root: Part)

  /** The address syntax checks javax.mail makes, left uninterpreted. */
  datatype AddressSyntax = AddressSyntax(
    isAddress: string -> bool,       // new InternetAddress(email) succeeds
    isAddressList: string -> bool)   // MimeMessage.setFrom(String) parses its argument

  /** The From header of the outbound message: a configured text, or the original senders reformatted. */
  datatype FromHeader = Given(text: string) | CopiedFrom(senders: Option<seq<Address>>)

  datatype Transport = Smtp(host: string, port: Option<string>, user: Option<string>, password: Option<string>) | Ses

  /** The message built at SNSHandler.java:146-169, and the transport it is handed to. */
  datatype Outbound = Outbound(
    subject: Option<string>,
    content: Content,
    contentType: string,
    replyTo: Option<seq<Address>>,
    originalTo: Option<seq<Address>>,
    from: FromHeader,
    recipients: seq<string>,
    transport: Transport)

  /** The exceptions processEmail can raise after it has decided to forward. */
  datatype Error =
    | MissingSender                      // emailFrom[0] on a null or empty sender list (SNSHandler.java:154)
    | InvalidSender(text: string)        // setFrom rejects the computed From (SNSHandler.java:162)
    | InvalidRecipient(address: string)  // new InternetAddress(email) rejects a destination (SNSHandler.java:168)

  datatype Outcome = Ignore | Forward(message: Outbound) | Failure(error: Error)

  datatype Result<T> = Ok(value: T) | Fail(error: Error)

  const LESS_THAN: string := "<"

  // ---------------------------------------------------------------------------
  // The decision (SNSHandler.java:117-143)

  /** SNSHandler.java:131. */
  predicate SubjectMatch(filter: Option<string>, subject: Option<string>)
  {
    IsNotEmpty(filter) ==> subject.Some? && EqualsIgnoreCase(filter.value, subject.value)
  }

  /** SNSHandler.java:132. */
  predicate ContentMatch(filter: Option<string>, body: string)
  {
    IsNotEmpty(filter) ==> ContainsIgnoreCase(body, filter.value)
  }

  /** The trimmed value split on ";" (SNSHandler.java:117-118). */
  function Entries(raw: Option<string>): seq<string>
  {
    Split(TrimToEmpty(raw))
  }

  /** Some entry occurs in `body`, ignoring case. */
  predicate AnyContained(body: string, entries: seq<string>)
  {
    entries != [] && (AnyContained(body, entries[..|entries| - 1]) || ContainsIgnoreCase(body, entries[|entries| - 1]))
  }

  lemma {:induction false} AnyContainedIff(body: string, entries: seq<string>)
    ensures AnyContained(body, entries) <==> exists i :: 0 <= i < |entries| && ContainsIgnoreCase(body, entries[i])
  {
    if entries != [] {
      var init := entries[..|entries| - 1];
      AnyContainedIff(body, init);
      assert forall i :: 0 <= i < |init| ==> init[i] == entries[i];
      if exists i :: 0 <= i < |entries| && ContainsIgnoreCase(body, entries[i]) {
        var i :| 0 <= i < |entries| && ContainsIgnoreCase(body, entries[i]);
        if i < |init| {
          assert ContainsIgnoreCase(body, init[i]);
        }
      }
    }
  }

  /** SNSHandler.java:133 and SNSHandler.java:137-141: consulted only when the raw value is non-empty. */
  predicate IgnoreMatch(raw: Option<string>, body: string)
  {
    IsNotEmpty(raw) && AnyContained(body, Entries(raw))
  }

  /** The condition of SNSHandler.java:143. */
  predicate ShouldForward(config: Config, subject: Option<string>, body: string)
  {
    && IsNotEmpty(config.destination)
    && SubjectMatch(config.subject, subject)
    && ContentMatch(config.content, body)
    && !IgnoreMatch(config.contentIgnoreMessage, body)
  }

  // ---------------------------------------------------------------------------
  // Building the outbound message (SNSHandler.java:146-177)

  /** SNSHandler.java:152-165. */
  function ComposeFrom(override: Option<string>, senders: Option<seq<Address>>): Result<FromHeader>
  {
    if !IsNotEmpty(override) then Ok(CopiedFrom(senders))
    else if !ContainsNone(override.value, LESS_THAN) then Ok(Given(override.value))
    else if senders.None? || senders.value == [] then Fail(MissingSender)
    else
      var personal := senders.value[0].personal;
      if IsNotEmpty(personal) then Ok(Given(personal.value + " <" + override.value + ">"))
      else Ok(Given(override.value))
  }

  /** The first destination the address parser rejects, if any. */
  function FirstInvalid(emails: seq<string>, isAddress: string -> bool): (r: Option<string>)
    ensures r.None? <==> forall k :: 0 <= k < |emails| ==> isAddress(emails[k])
    ensures r.Some? ==> exists k :: 0 <= k < |emails| && emails[k] == r.value && !isAddress(r.value) &&
                                    forall t :: 0 <= t < k ==> isAddress(emails[t])
  {
    if emails == [] then None
    else if !isAddress(emails[0]) then Some(emails[0])
    else
      var r := FirstInvalid(emails[1..], isAddress);
      if r.Some? then
        var k :| 0 <= k < |emails[1..]| && emails[1..][k] == r.value && !isAddress(r.value) &&
                 forall t :: 0 <= t < k ==> isAddress(emails[1..][t]);
        assert emails[k + 1] == r.value;
        r
      else r
  }

  /** SNSHandler.java:135 and SNSHandler.java:173-177. */
  function ChooseTransport(config: Config): Transport
  {
    if IsNotEmpty(config.smtpHost) then Smtp(config.smtpHost.value, config.smtpPort, config.smtpUser, config.smtpPassword)
    else Ses
  }

  /** The message built once the decision is to forward (SNSHandler.java:146-169), or the exception building it raises. */
  function Build(config: Config, message: Message, syntax: AddressSyntax): Outcome
  {
    match ComposeFrom(config.from, message.from)
    case Fail(e) => Failure(e)
    case Ok(header) =>
      if header.Given? && !syntax.isAddressList(header.text) then Failure(InvalidSender(header.text))
      else
        var destinations := Entries(config.destination);
        match FirstInvalid(destinations, syntax.isAddress)
        case Some(email) => Failure(InvalidRecipient(email))
        case None =>
          Forward(Outbound(message.subject, message.root.content, message.contentType,
                           message.from, message.to, header, destinations, ChooseTransport(config)))
  }

  /** What processEmail does with a message whose extracted body text is `body`. */
  function Decide(config: Config, message: Message, body: string, syntax: AddressSyntax): Outcome
  {
    if ShouldForward(config, message.subject, body) then Build(config, message, syntax) else Ignore
  }

  /** The loop of SNSHandler.java:138-140: the flag is or-ed with each entry's containment test. */
  method MatchIgnoreList(emailContent: string, contentsIgnoreMessage: seq<string>) returns (contentIgnoreMatch: bool)
    ensures contentIgnoreMatch <==> AnyContained(emailContent, contentsIgnoreMessage)
  {
    contentIgnoreMatch := false;
    for k := 0 to |contentsIgnoreMessage|
      invariant contentIgnoreMatch <==> AnyContained(emailContent, contentsIgnoreMessage[..k])
    {
      var hit := ContainsIgnoreCase(emailContent, contentsIgnoreMessage[k]);
      contentIgnoreMatch := contentIgnoreMatch || hit;
      assert contentsIgnoreMessage[..k + 1][..k] == contentsIgnoreMessage[..k];
    }
    assert contentsIgnoreMessage[..|contentsIgnoreMessage|] == contentsIgnoreMessage;
  }

  /**
   * The loop of SNSHandler.java:167-169: each destination in turn becomes a TO recipient, and the
   * first one the address parser rejects ends the loop with an exception.
   */
  method AddRecipients(destinations: seq<string>, isAddress: string -> bool) returns (recipients: seq<string>, rejected: Option<string>)
    ensures rejected == FirstInvalid(destinations, isAddress)
    ensures rejected.None? ==> recipients == destinations
  {
    recipients := [];
    for k := 0 to |destinations|
      invariant recipients == destinations[..k]
      invariant FirstInvalid(destinations, isAddress) == FirstInvalid(destinations[k..], isAddress)
    {
      var email := destinations[k];
      if !isAddress(email) {
        return recipients, Some(email);
      }
      recipients := recipients + [email];
      assert destinations[k..][1..] == destinations[k + 1..];
    }
    assert destinations[..|destinations|] == destinations;
    rejected := None;
  }

  /** processEmail (SNSHandler.java:106-182). */
  method ProcessEmail(config: Config, message: Message, lib: Library, syntax: AddressSyntax) returns (outcome: Outcome)
    ensures outcome == Decide(config, message, Render(Fragments(message.root, lib)), syntax)
  {
    var contentsIgnoreMessage := Split(TrimToEmpty(config.contentIgnoreMessage));
    var destinations := Split(TrimToEmpty(config.destination));

    var emailSubject := message.subject;
    var emailContent := GetContent(message.root, lib);
    var emailFrom := message.from;

    var subjectMatch := if IsNotEmpty(config.subject) then emailSubject.Some? && EqualsIgnoreCase(config.subject.value, emailSubject.value) else true;
    var contentMatch := if IsNotEmpty(config.content) then ContainsIgnoreCase(emailContent, config.content.value) else true;
    var contentIgnoreMatch := false;
    assert subjectMatch == SubjectMatch(config.subject, emailSubject);
    assert contentMatch == ContentMatch(config.content, emailContent);
    var hasDestinations := IsNotEmpty(config.destination);
    var smtpConfigured := IsNotEmpty(config.smtpHost);

    if IsNotEmpty(config.contentIgnoreMessage) {
      contentIgnoreMatch := MatchIgnoreList(emailContent, contentsIgnoreMessage);
    }

    assert contentIgnoreMatch == IgnoreMatch(config.contentIgnoreMessage, emailContent);
    if !(hasDestinations && subjectMatch && contentMatch && !contentIgnoreMatch) {
      return Ignore;
    }
    assert ShouldForward(config, emailSubject, emailContent);

    var from := config.from;
    var header: FromHeader;
    if IsNotEmpty(from) {
      if ContainsNone(from.value, LESS_THAN) {
        if emailFrom.None? || |emailFrom.value| == 0 {
          return Failure(MissingSender);
        }
        var personal := emailFrom.value[0].personal;
        if IsNotEmpty(personal) {
          from := Some(personal.value + " <" + from.value + ">");
        }
      }
      if !syntax.isAddressList(from.value) {
        return Failure(InvalidSender(from.value));
      }
      header := Given(from.value);
    } else {
      header := CopiedFrom(emailFrom);
    }

    var recipients, rejected := AddRecipients(destinations, syntax.isAddress);
    if rejected.Some? {
      return Failure(InvalidRecipient(rejected.value));
    }

    var transport := if smtpConfigured then Smtp(config.smtpHost.value, config.smtpPort, config.smtpUser, config.smtpPassword) else Ses;
    outcome := Forward(Outbound(emailSubject, message.root.content, message.contentType, emailFrom, message.to, header, recipients, transport));
  }

  // ---------------------------------------------------------------------------
  // Properties of the decision

  /** A message is forwarded, or fails while being built, exactly when the condition of SNSHandler.java:143 holds. */
  lemma IgnoredIffConditionFails(config: Config, message: Message, body: string, syntax: AddressSyntax)
    ensures Decide(config, message, body, syntax) == Ignore <==>
            !(&& IsNotEmpty(config.destination)
              && SubjectMatch(config.subject, message.subject)
              && ContentMatch(config.content, body)
              && !IgnoreMatch(config.contentIgnoreMessage, body))
  {
  }

  /** Nothing is forwarded without a configured destination. */
  lemma NoDestinationNoForward(config: Config, message: Message, body: string, syntax: AddressSyntax)
    requires !IsNotEmpty(config.destination)
    ensures Decide(config, message, body, syntax) == Ignore
  {
  }

  /** The subject filter: unset or empty always matches; otherwise equality ignoring case, and never a missing subject. */
  lemma SubjectFilter(filter: Option<string>, subject: Option<string>)
    ensures !IsNotEmpty(filter) ==> SubjectMatch(filter, subject)
    ensures IsNotEmpty(filter) && subject.None? ==> !SubjectMatch(filter, subject)
    ensures IsNotEmpty(filter) && subject.Some? ==>
              (SubjectMatch(filter, subject) <==> Lower(filter.value) == Lower(subject.value))
  {
    if IsNotEmpty(filter) && subject.Some? {
      EqualsIgnoreCaseIsFoldedEquality(filter.value, subject.value);
    }
  }

  /** The content filter: unset or empty always matches; otherwise the folded filter must occur in the folded body. */
  lemma ContentFilter(filter: Option<string>, body: string)
    ensures !IsNotEmpty(filter) ==> ContentMatch(filter, body)
    ensures IsNotEmpty(filter) ==>
              (ContentMatch(filter, body) <==> exists i :: OccursAt(Lower(filter.value), Lower(body), i))
  {
    if IsNotEmpty(filter) {
      ContainsIgnoreCaseIsFoldedContainment(body, filter.value);
    }
  }

  /** The ignore list does not depend on the order of its entries. */
  lemma IgnoreOrderIrrelevant(body: string, xs: seq<string>, ys: seq<string>)
    requires multiset(xs) == multiset(ys)
    ensures AnyContained(body, xs) <==> AnyContained(body, ys)
  {
    AnyContainedIff(body, xs);
    AnyContainedIff(body, ys);
    if AnyContained(body, xs) {
      var i :| 0 <= i < |xs| && ContainsIgnoreCase(body, xs[i]);
      assert xs[i] in multiset(ys);
      var j :| 0 <= j < |ys| && ys[j] == xs[i];
    }
    if AnyContained(body, ys) {
      var j :| 0 <= j < |ys| && ContainsIgnoreCase(body, ys[j]);
      assert ys[j] in multiset(xs);
      var i :| 0 <= i < |xs| && xs[i] == ys[j];
    }
  }

  /** An empty entry in the ignore list suppresses every message. */
  lemma EmptyEntrySuppressesAll(raw: Option<string>, body: string)
    requires IsNotEmpty(raw) && "" in Entries(raw)
    ensures IgnoreMatch(raw, body)
  {
    var i :| 0 <= i < |Entries(raw)| && Entries(raw)[i] == "";
    EmptySearchAlwaysContained(body);
    AnyContainedIff(body, Entries(raw));
  }

  /** "a;;b" holds an empty entry between its two separators. */
  lemma DoubleSeparatorHasEmptyEntry()
    ensures Split("a;;b") == ["a", "", "b"]
  {
    assert "a;;b"[..3] == "a;;" && "a;;"[..2] == "a;" && "a;"[..1] == "a" && "a"[..0] == "";
    assert Fields("") == [""];
    assert Fields("a") == [[] + ['a']];
    assert [] + ['a'] == "a";
    assert Fields("a;") == ["a", ""];
    assert Fields("a;;") == ["a", "", ""];
    assert Fields("a;;b") == ["a", ""] + ["" + ['b']];
    assert "" + ['b'] == "b";
    assert SEPARATOR in "a;;b" by {
      assert "a;;b"[1] == SEPARATOR;
    }
  }

  /** A configured ignore value made only of blanks trims to "", which splits to [""]: every message is suppressed. */
  lemma BlankIgnoreValueSuppressesAll(raw: string, body: string)
    requires raw != [] && AllTrimmable(raw)
    ensures IgnoreMatch(Some(raw), body)
  {
    TrimBlank(raw);
    assert Split("") == [""];
    EmptyEntrySuppressesAll(Some(raw), body);
  }

  /** The three From rules of SNSHandler.java:152-165. */
  lemma FromRules(override: Option<string>, senders: Option<seq<Address>>)
    ensures !IsNotEmpty(override) ==> ComposeFrom(override, senders) == Ok(CopiedFrom(senders))
    ensures IsNotEmpty(override) && !ContainsNone(override.value, LESS_THAN) ==>
              ComposeFrom(override, senders) == Ok(Given(override.value))
    ensures IsNotEmpty(override) && ContainsNone(override.value, LESS_THAN) ==>
              match senders
              case None => ComposeFrom(override, senders) == Fail(MissingSender)
              case Some(list) =>
                if list == [] then ComposeFrom(override, senders) == Fail(MissingSender)
                else if IsNotEmpty(list[0].personal) then
                  ComposeFrom(override, senders) == Ok(Given(list[0].personal.value + " <" + override.value + ">"))
                else ComposeFrom(override, senders) == Ok(Given(override.value))
  {
  }

  /** A bare override address takes the first sender's display name. */
  lemma FromTakesDisplayName()
    ensures ComposeFrom(Some("ops@example.com"), Some([Address(Some("Jane Doe"), "jane@example.org")]))
            == Ok(Given("Jane Doe <ops@example.com>"))
  {
    assert ContainsNone("ops@example.com", LESS_THAN);
    assert IsNotEmpty(Some("Jane Doe"));
    assert "Jane Doe" + " <" + "ops@example.com" + ">" == "Jane Doe <ops@example.com>";
  }

  /** A forwarded message: quoted headers and body verbatim, the configured recipients, the chosen transport. */
  lemma ForwardedMessage(config: Config, message: Message, body: string, syntax: AddressSyntax)
    requires Decide(config, message, body, syntax).Forward?
    ensures var o := Decide(config, message, body, syntax).message;
      && ShouldForward(config, message.subject, body)
      && o.subject == message.subject
      && o.content == message.root.content
      && o.contentType == message.contentType
      && o.replyTo == message.from
      && o.originalTo == message.to
      && ComposeFrom(config.from, message.from) == Ok(o.from)
      && o.recipients == Split(TrimToEmpty(config.destination))
      && (forall k :: 0 <= k < |o.recipients| ==> syntax.isAddress(o.recipients[k]))
      && (o.transport.Smtp? <==> IsNotEmpty(config.smtpHost))
      && (o.transport.Smtp? ==> o.transport.host == config.smtpHost.value)
  {
  }

  /** When the condition holds and every address parses, the message is forwarded. */
  lemma ForwardedWhenAllParses(config: Config, message: Message, body: string, syntax: AddressSyntax)
    requires ShouldForward(config, message.subject, body)
    requires ComposeFrom(config.from, message.from).Ok?
    requires var h := ComposeFrom(config.from, message.from).value; h.Given? ==> syntax.isAddressList(h.text)
    requires forall k :: 0 <= k < |Entries(config.destination)| ==> syntax.isAddress(Entries(config.destination)[k])
    ensures Decide(config, message, body, syntax).Forward?
  {
  }

  // ---------------------------------------------------------------------------
  // handleRequest (SNSHandler.java:64-104)

  /** One stored object named by an S3 event record: fetched, or the fetch raised. */
  datatype Retrieval = Retrieved(message: Message) | RetrievalFailed

  /** One SNS record: its S3 event notification parsed into object records, or unparsable. */
  datatype Notification = Parsed(objects: seq<Retrieval>) | Unparsable

  const EXECUTED: string := "Executed"
  const ERROR_ON_EXECUTION: string := "Error on execution"

  /** How far a run got: whether an exception ended it, and the messages handed to a transport. */
  datatype Run = Run(failed: bool, sent: seq<Outbound>)

  /** The environment a run works in: configuration, foreign behaviour, and which sends succeed. */
  datatype Env = Env(config: Config, lib: Library, syntax: AddressSyntax, delivers: Outbound -> bool)

  /** What handling one object does to the run: nothing, an exception, or one message sent. */
  datatype Effect = Skipped | Raised | Sent(message: Outbound)

  /** Fetching, processEmail, then the transport's send (SNSHandler.java:83-94). */
  function EffectOf(item: Retrieval, env: Env): Effect
  {
    match item
    case RetrievalFailed => Raised
    case Retrieved(m) =>
      match Decide(env.config, m, Render(Fragments(m.root, env.lib)), env.syntax)
      case Ignore => Skipped
      case Failure(_) => Raised
      case Forward(o) => if env.delivers(o) then Sent(o) else Raised
  }

  /** The effect of every object under one environment. */
  function Effects(env: Env): Retrieval -> Effect
  {
    item => EffectOf(item, env)
  }

  function Apply(r: Run, e: Effect): Run
  {
    if r.failed then r
    else match e
      case Skipped => r
      case Raised => Run(true, r.sent)
      case Sent(o) => Run(false, r.sent + [o])
  }

  /** The objects of one record in order; the folds are stated for any per-object effect. */
  function RunObjects(r: Run, items: seq<Retrieval>, effect: Retrieval -> Effect): Run
  {
    if items == [] then r else Apply(RunObjects(r, items[..|items| - 1], effect), effect(items[|items| - 1]))
  }

  function RecordStep(r: Run, record: Notification, effect: Retrieval -> Effect): Run
  {
    if r.failed then r
    else match record
      case Unparsable => Run(true, r.sent)
      case Parsed(objects) => RunObjects(r, objects, effect)
  }

  function RunRecords(r: Run, records: seq<Notification>, effect: Retrieval -> Effect): Run
  {
    if records == [] then r else RecordStep(RunRecords(r, records[..|records| - 1], effect), records[|records| - 1], effect)
  }

  /** One object (SNSHandler.java:75-95): fetched, passed to processEmail, and the outbound message sent. */
  method HandleObject(item: Retrieval, env: Env) returns (effect: Effect)
    ensures effect == EffectOf(item, env)
  {
    match item
    case RetrievalFailed =>
      effect := Raised;
    case Retrieved(m) =>
      var outcome := ProcessEmail(env.config, m, env.lib, env.syntax);
      match outcome
      case Ignore =>
        effect := Skipped;
      case Failure(_) =>
        effect := Raised;
      case Forward(o) =>
        effect := if env.delivers(o) then Sent(o) else Raised;
  }

  /**
   * The inner loop of handleRequest (SNSHandler.java:74-96) over the objects of one record, starting
   * with `sentBefore` already handed to a transport; `failed` says an exception escaped.
   */
  method HandleObjects(objects: seq<Retrieval>, sentBefore: seq<Outbound>, env: Env) returns (failed: bool, sent: seq<Outbound>)
    ensures RunObjects(Run(false, sentBefore), objects, Effects(env)) == Run(failed, sent)
  {
    sent := sentBefore;
    for j := 0 to |objects|
      invariant RunObjects(Run(false, sentBefore), objects[..j], Effects(env)) == Run(false, sent)
    {
      assert objects[..j + 1][..j] == objects[..j];
      var effect := HandleObject(objects[j], env);
      assert Effects(env)(objects[..j + 1][j]) == effect;
      match effect {
        case Skipped =>
          failed := false;
        case Raised =>
          failed := true;
        case Sent(o) =>
          failed := false;
          sent := sent + [o];
      }
      assert RunObjects(Run(false, sentBefore), objects[..j + 1], Effects(env)) == Run(failed, sent);
      if failed {
        FailureStopsObjects(Run(false, sentBefore), objects, j + 1, Effects(env));
        return;
      }
    }
    assert objects[..|objects|] == objects;
    failed := false;
  }

  /** handleRequest: records and their objects in order, stopping at the first exception. */
  method HandleRequest(records: seq<Notification>, env: Env) returns (result: string, sent: seq<Outbound>)
    ensures var final := RunRecords(Run(false, []), records, Effects(env));
      result == (if final.failed then ERROR_ON_EXECUTION else EXECUTED) && sent == final.sent
  {
    sent := [];
    for i := 0 to |records|
      invariant RunRecords(Run(false, []), records[..i], Effects(env)) == Run(false, sent)
    {
      assert records[..i + 1][..i] == records[..i];
      match records[i]
      case Unparsable =>
        FailureStopsRecords(Run(false, []), records, i + 1, Effects(env));
        return ERROR_ON_EXECUTION, sent;
      case Parsed(objects) =>
        var failed;
        failed, sent := HandleObjects(objects, sent, env);
        if failed {
          FailureStopsRecords(Run(false, []), records, i + 1, Effects(env));
          return ERROR_ON_EXECUTION, sent;
        }
    }
    assert records[..|records|] == records;
    result := EXECUTED;
  }

  /** A failed run stays failed and sends nothing more. */
  lemma {:induction false} FailedRunObjects(r: Run, items: seq<Retrieval>, effect: Retrieval -> Effect)
    requires r.failed
    ensures RunObjects(r, items, effect) == r
  {
    if items != [] {
      FailedRunObjects(r, items[..|items| - 1], effect);
    }
  }

  lemma {:induction false} FailedRunRecords(r: Run, records: seq<Notification>, effect: Retrieval -> Effect)
    requires r.failed
    ensures RunRecords(r, records, effect) == r
  {
    if records != [] {
      FailedRunRecords(r, records[..|records| - 1], effect);
    }
  }

  lemma {:induction false} RunObjectsAppend(r: Run, xs: seq<Retrieval>, ys: seq<Retrieval>, effect: Retrieval -> Effect)
    ensures RunObjects(r, xs + ys, effect) == RunObjects(RunObjects(r, xs, effect), ys, effect)
    decreases |ys|
  {
    if ys == [] {
      assert xs + ys == xs;
    } else {
      var xy := xs + ys;
      assert xy[..|xy| - 1] == xs + ys[..|ys| - 1] && xy[|xy| - 1] == ys[|ys| - 1];
      RunObjectsAppend(r, xs, ys[..|ys| - 1], effect);
    }
  }

  lemma {:induction false} RunRecordsAppend(r: Run, xs: seq<Notification>, ys: seq<Notification>, effect: Retrieval -> Effect)
    ensures RunRecords(r, xs + ys, effect) == RunRecords(RunRecords(r, xs, effect), ys, effect)
    decreases |ys|
  {
    if ys == [] {
      assert xs + ys == xs;
    } else {
      var xy := xs + ys;
      assert xy[..|xy| - 1] == xs + ys[..|ys| - 1] && xy[|xy| - 1] == ys[|ys| - 1];
      RunRecordsAppend(r, xs, ys[..|ys| - 1], effect);
    }
  }

  /** Once a prefix of the objects has failed, the rest change nothing. */
  lemma FailureStopsObjects(r: Run, items: seq<Retrieval>, n: nat, effect: Retrieval -> Effect)
    requires n <= |items| && RunObjects(r, items[..n], effect).failed
    ensures RunObjects(r, items, effect) == RunObjects(r, items[..n], effect)
  {
    assert items == items[..n] + items[n..];
    RunObjectsAppend(r, items[..n], items[n..], effect);
    FailedRunObjects(RunObjects(r, items[..n], effect), items[n..], effect);
  }

  /** Once a prefix of the records has failed, the rest change nothing: the first exception ends the run. */
  lemma FailureStopsRecords(r: Run, records: seq<Notification>, n: nat, effect: Retrieval -> Effect)
    requires n <= |records| && RunRecords(r, records[..n], effect).failed
    ensures RunRecords(r, records, effect) == RunRecords(r, records[..n], effect)
  {
    assert records == records[..n] + records[n..];
    RunRecordsAppend(r, records[..n], records[n..], effect);
    FailedRunRecords(RunRecords(r, records[..n], effect), records[n..], effect);
  }

  /** Messages already handed to a transport stay sent: every later state extends the list. */
  lemma {:induction false} SentOnlyGrows(r: Run, records: seq<Notification>, effect: Retrieval -> Effect)
    ensures var s := RunRecords(r, records, effect).sent; |r.sent| <= |s| && s[..|r.sent|] == r.sent
  {
    if records != [] {
      SentOnlyGrows(r, records[..|records| - 1], effect);
      var mid := RunRecords(r, records[..|records| - 1], effect);
      if !mid.failed && records[|records| - 1].Parsed? {
        SentOnlyGrowsObjects(mid, records[|records| - 1].objects, effect);
      }
    }
  }

  lemma {:induction false} SentOnlyGrowsObjects(r: Run, items: seq<Retrieval>, effect: Retrieval -> Effect)
    ensures var s := RunObjects(r, items, effect).sent; |r.sent| <= |s| && s[..|r.sent|] == r.sent
  {
    if items != [] {
      SentOnlyGrowsObjects(r, items[..|items| - 1], effect);
    }
  }

  /** No object of the record raises. */
  predicate ObjectsClean(items: seq<Retrieval>, effect: Retrieval -> Effect)
  {
    forall j :: 0 <= j < |items| ==> effect(items[j]) != Raised
  }

  /** Every record parses and none of its objects raises. */
  predicate RecordsClean(records: seq<Notification>, effect: Retrieval -> Effect)
  {
    forall i :: 0 <= i < |records| ==> records[i].Parsed? && ObjectsClean(records[i].objects, effect)
  }

  lemma {:induction false} ObjectsFailIff(r: Run, items: seq<Retrieval>, effect: Retrieval -> Effect)
    requires !r.failed
    ensures RunObjects(r, items, effect).failed <==> !ObjectsClean(items, effect)
  {
    if items != [] {
      var init := items[..|items| - 1];
      ObjectsFailIff(r, init, effect);
      assert forall j :: 0 <= j < |init| ==> init[j] == items[j];
      if RunObjects(r, init, effect).failed {
        FailedRunObjects(RunObjects(r, init, effect), [items[|items| - 1]], effect);
      }
    }
  }

  /** handleRequest answers "Executed" exactly when every record parses and no object raises. */
  lemma {:induction false} RecordsFailIff(r: Run, records: seq<Notification>, effect: Retrieval -> Effect)
    requires !r.failed
    ensures RunRecords(r, records, effect).failed <==> !RecordsClean(records, effect)
  {
    if records != [] {
      var init, last := records[..|records| - 1], records[|records| - 1];
      RecordsFailIff(r, init, effect);
      assert forall i :: 0 <= i < |init| ==> init[i] == records[i];
      var mid := RunRecords(r, init, effect);
      if !mid.failed && last.Parsed? {
        ObjectsFailIff(mid, last.objects, effect);
      }
    }
  }
}
