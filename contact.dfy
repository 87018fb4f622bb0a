/**
 * The `POST /api/contact` handler: a presence check on the three submitted
 * fields, then the e-mail pattern, then the thank-you reply.
 */
module Contact {
  import opened Wrappers
  import opened EmailPattern

  /** The JSON reply together with its HTTP status. */
  datatype Reply = Reply(status: nat, success: bool, message: string)

  const MissingFieldsMessage: string := "Please fill in all fields"
  const InvalidEmailMessage: string := "Please enter a valid email address"
  const ThankYouMessage: string := "Thank you for your message! We'll get back to you soon."

  /** A body field is truthy in JavaScript: submitted and not the empty string. */
  predicate Filled(field: Option<string>)
  {
    field.Some? && field.value != ""
  }

  /** All three fields are truthy. */
  predicate AllFilled(name: Option<string>, email: Option<string>, message: Option<string>)
  {
    Filled(name) && Filled(email) && Filled(message)
  }

  /**
   * The reply the handler eventually sends. A missing field is reported
   * before the address is looked at; the success reply goes out with the
   * default status 200.
   */
  function HandleContact(name: Option<string>, email: Option<string>, message: Option<string>): (r: Reply)
    ensures r.success <==> AllFilled(name, email, message) && MatchesEmail(email.value)
    ensures r.status == 400 <==> !r.success
    ensures r.status == 200 <==> r.success
    ensures r.success ==> r.message == ThankYouMessage
    ensures !r.success ==> r.message == MissingFieldsMessage || r.message == InvalidEmailMessage
    ensures r.message == MissingFieldsMessage <==> !AllFilled(name, email, message)
  {
    if !Filled(name) || !Filled(email) || !Filled(message) then
      Reply(400, false, MissingFieldsMessage)
    else if !MatchesEmail(email.value) then
      Reply(400, false, InvalidEmailMessage)
    else
      Reply(200, true, ThankYouMessage)
  }

  /** The three replies are told apart by their messages. */
  lemma MessagesDistinct()
    ensures MissingFieldsMessage != InvalidEmailMessage
    ensures MissingFieldsMessage != ThankYouMessage
    ensures InvalidEmailMessage != ThankYouMessage
  {
    assert |MissingFieldsMessage| == 25;
    assert |InvalidEmailMessage| == 34;
    assert |ThankYouMessage| == 55;
  }

  /** Any absent or empty field gives the fixed 400 "fill in all fields" reply. */
  lemma MissingFieldRejected(name: Option<string>, email: Option<string>, message: Option<string>)
    requires !Filled(name) || !Filled(email) || !Filled(message)
    ensures HandleContact(name, email, message) == Reply(400, false, MissingFieldsMessage)
  {
  }

  /** The presence check comes first: a request missing a field never hears about its address. */
  lemma MissingFieldBeforeEmail(name: Option<string>, email: Option<string>, message: Option<string>)
    requires !AllFilled(name, email, message)
    ensures HandleContact(name, email, message).message != InvalidEmailMessage
  {
    MessagesDistinct();
  }

  /** With every field present, an address outside the pattern gives the fixed 400 "valid email" reply. */
  lemma InvalidEmailRejected(name: Option<string>, email: Option<string>, message: Option<string>)
    requires AllFilled(name, email, message) && !MatchesEmail(email.value)
    ensures HandleContact(name, email, message) == Reply(400, false, InvalidEmailMessage)
  {
  }

  /** With every field present and an address in the pattern, the reply is the thank-you. */
  lemma ValidSubmissionAccepted(name: Option<string>, email: Option<string>, message: Option<string>)
    requires AllFilled(name, email, message) && MatchesEmail(email.value)
    ensures HandleContact(name, email, message) == Reply(200, true, ThankYouMessage)
  {
  }

  /** The name and the message matter only through being non-empty. */
  lemma OnlyPresenceOfNameAndMessageMatters(name1: Option<string>, name2: Option<string>,
                                            email: Option<string>,
                                            message1: Option<string>, message2: Option<string>)
    requires Filled(name1) == Filled(name2) && Filled(message1) == Filled(message2)
    ensures HandleContact(name1, email, message1) == HandleContact(name2, email, message2)
  {
  }

  /** An accepted submission's address has exactly one `@` and no whitespace. */
  lemma AcceptedSubmissionAddress(name: Option<string>, email: Option<string>, message: Option<string>)
    requires HandleContact(name, email, message).success
    ensures email.Some? && CountOf(email.value, '@') == 1
    ensures forall i :: 0 <= i < |email.value| ==> !IsWhitespace(email.value[i])
  {
    AcceptedHasOneAt(email.value);
    AcceptedHasNoWhitespace(email.value);
  }

  /** Worked cases: a missing name with a bad address, a bad address, a good one. */
  lemma HandlerExamples()
    ensures HandleContact(None, Some("nope"), Some("hi")).message == MissingFieldsMessage
    ensures HandleContact(Some("Ann"), Some("ann@b"), Some("hi")).message == InvalidEmailMessage
    ensures HandleContact(Some("Ann"), Some("ann@example.com"), Some("hi")).success
  {
    var e := "ann@example.com";
    assert SplitsAt(e, 3, 11) by {
      assert e[..3] == "ann" && e[4..11] == "example" && e[12..] == "com";
    }
    assert !MatchesEmail("ann@b") by {
      MatchesIffWellShaped("ann@b");
    }
  }
}
