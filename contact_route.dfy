/** The `POST` handler of app/api/contact/route.ts: derive the caller key,
    consult the rate limiter, decode the body, run the validation chain and
    answer with a status code and a message.

    `request.json()` is a foreign call; its result is an input (`Decoded`).
    The JSON values the checks look at are modelled only as far as
    JavaScript truthiness and `typeof` tell them apart. */
module ContactRoute {
  import opened Wrappers
  import opened JsString
  import opened EmailPattern
  import opened RateLimit

  /** The defaults of `isRateLimited`, which `POST` relies on. */
  const MaxRequests: int := 5
  const WindowMs: int := 3_600_000

  /** A JavaScript value read from the decoded body. Numbers are kept only
      as "zero or not" (the only distinction truthiness makes for JSON
      numbers); objects and arrays are `Other`. */
  datatype Value = Undefined | Null | Bool(b: bool) | Num(isZero: bool) | Str(s: string) | Other

  /** `!!v` in JavaScript. */
  predicate Truthy(v: Value): (b: bool)
    ensures v.Undefined? || v.Null? ==> !b
    ensures v.Str? ==> (b <==> v.s != "")
    ensures v.Other? ==> b
  {
    match v
    case Undefined => false
    case Null => false
    case Bool(b) => b
    case Num(isZero) => !isZero
    case Str(s) => s != ""
    case Other => true
  }

  /** The value `request.json()` produced: an object with its properties,
      `null`, or any other JSON value (array, string, number, boolean),
      none of which has a `name`, `email` or `message` property. */
  datatype Body = Object(fields: map<string, Value>) | NullBody | NonObject

  /** The outcome of `await request.json()`. */
  datatype Decoded = DecodeFailed | Decoded(body: Body)

  /** Property `key` of a body that is not `null`. */
  function Property(body: Body, key: string): (v: Value)
    ensures body.Object? && key in body.fields ==> v == body.fields[key]
    ensures !(body.Object? && key in body.fields) ==> v == Undefined
  {
    if body.Object? && key in body.fields then body.fields[key] else Undefined
  }

  /** The validation failures, in the order the handler checks them. */
  datatype Reason = MissingFields | InvalidTypes | InvalidEmail | NameLength | MessageLength

  function Rank(q: Reason): nat {
    match q
    case MissingFields => 0
    case InvalidTypes => 1
    case InvalidEmail => 2
    case NameLength => 3
    case MessageLength => 4
  }

  /** Each check on its own. The e-mail and length checks only speak about
      strings: on other values the type check, which comes first, fails. */
  predicate Violates(q: Reason, name: Value, email: Value, message: Value) {
    match q
    case MissingFields => !Truthy(name) || !Truthy(email) || !Truthy(message)
    case InvalidTypes => !(name.Str? && email.Str? && message.Str?)
    case InvalidEmail => email.Str? && !Matches(email.s)
    case NameLength => name.Str? && !(2 <= Utf16Length(name.s) <= 100)
    case MessageLength => message.Str? && !(10 <= Utf16Length(message.s) <= 5000)
  }

  /** The chain of guarded early returns of the handler. The reason it
      reports is a violated check with no violated check before it, and it
      reports none exactly when no check is violated. Lengths are counted
      in UTF-16 code units and both bounds are inclusive. */
  function Validate(name: Value, email: Value, message: Value): (r: Option<Reason>)
    ensures r.Some? ==> Violates(r.value, name, email, message)
    ensures r.Some? ==> forall q :: Rank(q) < Rank(r.value) ==> !Violates(q, name, email, message)
    ensures r.None? <==> forall q :: !Violates(q, name, email, message)
  {
    if !Truthy(name) || !Truthy(email) || !Truthy(message) then
      assert Violates(MissingFields, name, email, message);
      Some(MissingFields)
    else if !name.Str? || !email.Str? || !message.Str? then
      assert Violates(InvalidTypes, name, email, message);
      Some(InvalidTypes)
    else if !Matches(email.s) then
      assert Violates(InvalidEmail, name, email, message);
      Some(InvalidEmail)
    else if Utf16Length(name.s) < 2 || Utf16Length(name.s) > 100 then
      assert Violates(NameLength, name, email, message);
      Some(NameLength)
    else if Utf16Length(message.s) < 10 || Utf16Length(message.s) > 5000 then
      assert Violates(MessageLength, name, email, message);
      Some(MessageLength)
    else None
  }

  /** A response: the HTTP status and the `message` of its JSON body. */
  datatype Response = Response(status: int, message: string)

  const TooManyRequests := Response(429, "Too many requests. Please try again later.")
  const Sent := Response(200, "Message sent successfully! I will get back to you soon.")
  const InternalError := Response(500, "An error occurred. Please try again.")

  function Rejection(q: Reason): (r: Response)
    ensures r.status == 400 && r.message != ""
  {
    match q
    case MissingFields => Response(400, "Missing required fields")
    case InvalidTypes => Response(400, "Invalid field types")
    case InvalidEmail => Response(400, "Invalid email address")
    case NameLength => Response(400, "Name must be between 2 and 100 characters")
    case MessageLength => Response(400, "Message must be between 10 and 5000 characters")
  }

  /** Each reason has its own message, so the client can tell them apart. */
  lemma RejectionInjective(p: Reason, q: Reason)
    ensures Rejection(p).message == Rejection(q).message ==> p == q
  {
    assert |Rejection(MissingFields).message| == 23;
    assert |Rejection(InvalidTypes).message| == 19;
    assert |Rejection(InvalidEmail).message| == 21;
    assert |Rejection(NameLength).message| == 41;
    assert |Rejection(MessageLength).message| == 46;
  }

  /** The three fields pass every check. */
  predicate Acceptable(name: Value, email: Value, message: Value) {
    && name.Str? && email.Str? && message.Str?
    && Matches(email.s)
    && 2 <= Utf16Length(name.s) <= 100
    && 10 <= Utf16Length(message.s) <= 5000
  }

  /** Everything after the rate check, inside the `try`: a body that fails
      to decode, or is `null` so that destructuring it throws, ends in the
      catch-all 500; otherwise the first failing check gives a 400, and a
      body that passes them all gives the 200. */
  function HandleBody(decoded: Decoded): (r: Response)
    ensures r.status == 200 || r.status == 400 || r.status == 500
    ensures r.status == 500 <==> decoded.DecodeFailed? || decoded.body.NullBody?
    ensures r.status == 500 ==> r == InternalError
    ensures r.status == 200 ==> r == Sent
    ensures r.status == 400 ==>
      && decoded.Decoded?
      && var v := Validate(Property(decoded.body, "name"), Property(decoded.body, "email"), Property(decoded.body, "message"));
         v.Some? && r == Rejection(v.value)
    ensures r == Sent <==>
      (&& decoded.Decoded? && !decoded.body.NullBody?
       && Acceptable(Property(decoded.body, "name"), Property(decoded.body, "email"), Property(decoded.body, "message")))
  {
    match decoded
    case DecodeFailed => InternalError
    case Decoded(body) =>
      if body.NullBody? then InternalError
      else
        match Validate(Property(body, "name"), Property(body, "email"), Property(body, "message"))
        case Some(q) => Rejection(q)
        case None => Sent
  }

  /** `request.headers.get('x-forwarded-for') || request.headers.get('x-real-ip') || 'unknown'`:
      an absent or empty header is skipped, so the key is never empty. */
  function CallerKey(forwardedFor: Option<string>, realIp: Option<string>): (key: string)
    ensures key != ""
    ensures key == "unknown" || Some(key) == forwardedFor || Some(key) == realIp
    ensures forwardedFor.Some? && forwardedFor.value != "" ==> key == forwardedFor.value
    ensures forwardedFor in {None, Some("")} && realIp.Some? && realIp.value != "" ==> key == realIp.value
    ensures forwardedFor in {None, Some("")} && realIp in {None, Some("")} ==> key == "unknown"
  {
    if forwardedFor.Some? && forwardedFor.value != "" then forwardedFor.value
    else if realIp.Some? && realIp.value != "" then realIp.value
    else "unknown"
  }

  /** `POST(request)` against the process-wide limiter, at time `now`. The
      rate check comes before the body is looked at, so a limited caller
      gets 429 whatever the body; an admitted call stays recorded even when
      it then fails with 400 or 500. */
  method Post(limiter: RateLimiter, forwardedFor: Option<string>, realIp: Option<string>, now: int, decoded: Decoded)
    returns (r: Response)
    modifies limiter
    ensures var o := Check(old(limiter.table), CallerKey(forwardedFor, realIp), now, MaxRequests, WindowMs);
      && limiter.table == o.table
      && (o.limited ==> r == TooManyRequests)
      && (!o.limited ==> r == HandleBody(decoded))
  {
    var ip := CallerKey(forwardedFor, realIp);
    var limited := limiter.IsRateLimited(ip, now, MaxRequests, WindowMs);
    if limited {
      return TooManyRequests;
    }
    r := HandleBody(decoded);
  }

  /** A JSON object with three string properties. */
  function Submission(name: string, email: string, message: string): Decoded {
    Decoded(Object(map["name" := Str(name), "email" := Str(email), "message" := Str(message)]))
  }

  /** The handler's answer to a body with three string properties: the
      success answer when the three pass every check, otherwise the
      rejection for the first check they fail. */
  function Verdict(name: string, email: string, message: string): (r: Response)
    ensures r == Sent <==> Acceptable(Str(name), Str(email), Str(message))
    ensures r != Sent ==> exists q :: (r == Rejection(q) && Violates(q, Str(name), Str(email), Str(message)) &&
      forall p :: Rank(p) < Rank(q) ==> !Violates(p, Str(name), Str(email), Str(message)))
  {
    match Validate(Str(name), Str(email), Str(message))
    case None => Sent
    case Some(q) => Rejection(q)
  }

  /** A body with three string properties gets `Verdict`'s answer: it is
      neither a 500 nor any rejection other than the first failed check. */
  lemma SubmissionVerdict(name: string, email: string, message: string)
    ensures HandleBody(Submission(name, email, message)) == Verdict(name, email, message)
  {
    var body := Submission(name, email, message).body;
    assert Property(body, "name") == Str(name);
    assert Property(body, "email") == Str(email);
    assert Property(body, "message") == Str(message);
    var r := HandleBody(Submission(name, email, message));
    assert r.status == 200 || r.status == 400;
  }

  lemma ExampleAddressMatches()
    ensures Matches("jane@example.com")
  {
    var s := "jane@example.com";
    assert s[4] == '@' && s[12] == '.';
    assert s[..4] == "jane" && s[5..12] == "example" && s[13..] == "com";
  }

  /** A valid name, address and a 20-character message are accepted. */
  lemma ValidSubmissionAccepted()
    ensures Verdict("Jane Doe", "jane@example.com", "Hello, nice to meet!") == Sent
  {
    ExampleAddressMatches();
  }

  /** For text without characters above U+FFFF, lengths inside both
      inclusive bounds are accepted, given a matching address. */
  lemma AcceptedWithinBounds(name: string, email: string, message: string)
    requires InBmp(name) && InBmp(message) && Matches(email)
    requires 2 <= |name| <= 100 && 10 <= |message| <= 5000
    ensures Verdict(name, email, message) == Sent
  {
    Utf16LengthInBmp(name);
    Utf16LengthInBmp(message);
  }

  /** A non-empty name shorter than 2 or longer than 100 characters gets the
      name-length error, whatever the message. */
  lemma NameOutOfBoundsRejected(name: string, email: string, message: string)
    requires InBmp(name) && Matches(email) && message != ""
    requires |name| == 1 || |name| > 100
    ensures Verdict(name, email, message) == Rejection(NameLength)
  {
    Utf16LengthInBmp(name);
  }

  /** With a valid name, a non-empty message shorter than 10 or longer than
      5000 characters gets the message-length error. */
  lemma MessageOutOfBoundsRejected(name: string, email: string, message: string)
    requires InBmp(name) && InBmp(message) && Matches(email)
    requires 2 <= |name| <= 100 && (1 <= |message| < 10 || |message| > 5000)
    ensures Verdict(name, email, message) == Rejection(MessageLength)
  {
    Utf16LengthInBmp(name);
    Utf16LengthInBmp(message);
  }

  /** Lengths are UTF-16 code units: a name of one character above U+FFFF
      has length 2 and is accepted. */
  lemma AstralNameOfOneCharacterAccepted(name: string, email: string, message: string)
    requires |name| == 1 && name[0] as int > 0xFFFF
    requires InBmp(message) && Matches(email) && 10 <= |message| <= 5000
    ensures Verdict(name, email, message) == Sent
  {
    assert Utf16Length(name) == 2 by {
      assert name[1..] == [];
    }
    Utf16LengthInBmp(message);
  }

  /** Three non-empty strings whose address holds no `@` get the e-mail
      error, whatever the name and the message. */
  lemma AddressWithoutAtRejected(name: string, email: string, message: string)
    requires name != "" && email != "" && message != "" && '@' !in email
    ensures Verdict(name, email, message) == Rejection(InvalidEmail)
  {
    MatchesIffPlainRule(email);
  }

  /** An address holding whitespace is rejected the same way. */
  lemma AddressWithSpaceRejected(name: string, email: string, message: string)
    requires name != "" && message != "" && ' ' in email
    ensures Verdict(name, email, message) == Rejection(InvalidEmail)
  {
    MatchesIffPlainRule(email);
  }

  /** An object whose three properties are all truthy but whose `message` is
      not a string (a non-zero number, `true`, an object or an array) gets
      the type error, not the missing-field error. */
  lemma TruthyNonStringMessageRejected(fields: map<string, Value>)
    requires "name" in fields && "email" in fields && "message" in fields
    requires Truthy(fields["name"]) && Truthy(fields["email"]) && Truthy(fields["message"])
    requires !fields["message"].Str?
    ensures HandleBody(Decoded(Object(fields))) == Rejection(InvalidTypes)
  {
    var body := Object(fields);
    assert Property(body, "message") == fields["message"];
  }

  /** Every object without a `message` property gets the missing-field
      error, whatever else it holds. */
  lemma MissingMessageRejected(fields: map<string, Value>)
    requires "message" !in fields
    ensures HandleBody(Decoded(Object(fields))) == Rejection(MissingFields)
  {
    assert Property(Object(fields), "message") == Undefined;
  }
}
