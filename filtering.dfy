/** Class `Filter`, which gathers a message's texts and runs the rule matcher
    once, and the routing step of `lambda_handler` that turns the matched rule
    into a channel and a colour. */
module Filtering {
  import opened Wrappers
  import opened Mail
  import opened Normalization
  import opened Rules

  /** The channel and colour used when no rule is matched. */
  const DefaultChannel: string := "#general"
  const DefaultColor: string := "good"

  /** The texts the matcher sees for a message with the given decoded body. */
  function TextsFor(email: Message, body: string): Texts {
    Texts(email.sender, email.recipient, email.subject,
          Fulltext(email.sender, email.recipient, email.subject, body))
  }

  class Filter {
    var sender: string
    var recipient: string
    var subject: string
    var body: string
    var fulltext: string
    var matched: Option<Rule>

    /** `Filter.__init__`. The decoded body is passed in: `Email.body()` may
        raise, and `Handle` evaluates it before constructing the filter. The
        rule list is not empty: on the empty list `__matched_filter` raises
        `IndexError`, so construction fails, and `Handle` raises instead. */
    constructor (email: Message, body: string, filters: seq<Rule>, search: Search)
      requires filters != []
      ensures sender == email.sender && recipient == email.recipient && subject == email.subject
      ensures this.body == body
      ensures fulltext == Fulltext(email.sender, email.recipient, email.subject, body)
      ensures matched == Some(SelectAsWritten(filters, TextsFor(email, body), search).value)
      ensures matched == Select(filters, TextsFor(email, body), search)
      // a constructed filter is always matched
      ensures IsMatched()
    {
      sender := email.sender;
      recipient := email.recipient;
      subject := email.subject;
      this.body := body;
      var text := Normalize(email.sender + email.recipient + email.subject + body);
      fulltext := text;
      var selected := MatchedFilter(filters, Texts(email.sender, email.recipient, email.subject, text), search);
      SelectAgreesWithCode(filters, Texts(email.sender, email.recipient, email.subject, text), search);
      matched := Some(selected.value);
    }

    /** `Filter.is_matched`. */
    function IsMatched(): bool
      reads this
    {
      matched.Some?
    }

    /** `Filter.matched_filter`. */
    function MatchedRule(): Option<Rule>
      reads this
    {
      matched
    }
  }

  /** The channel and colour sent to the notifier; `None` stands for a rule
      value of `None`, which the code passes on as it is. */
  datatype Routing = Routing(channel: Option<string>, color: Option<string>)

  /** `f[key]` on a rule dictionary. */
  function Lookup(e: Entry, key: string): (r: Result<Option<string>>)
    ensures r.Failure? <==> e.Missing?
    ensures r.Failure? ==> r.error == KeyError(key)
    ensures r.Success? ==> (r.value.Some? <==> e.Given?)
    ensures e.Given? ==> r == Success(Some(e.text))
  {
    match e
    case Missing => Failure(KeyError(key))
    case Null => Success(None)
    case Given(s) => Success(Some(s))
  }

  /** The routing step of `lambda_handler`, as a function of the matched rule. */
  function Route(matched: Option<Rule>): (r: Result<Routing>)
    // no rule matched: the defaults
    ensures matched.None? ==> r == Success(Routing(Some(DefaultChannel), Some(DefaultColor)))
    // the only failures are the two dictionary lookups, `post_channel` first
    ensures r.Failure? ==>
              && matched.Some?
              && (|| (matched.value.postChannel.Missing? && r.error == KeyError("post_channel"))
                  || (matched.value.postChannel.Present() && matched.value.attachmentsColor.Missing?
                      && r.error == KeyError("attachments_color")))
    // a matched rule without `post_channel` raises, before `attachments_color` is read
    ensures matched.Some? && matched.value.postChannel.Missing? ==> r == Failure(KeyError("post_channel"))
    // a matched rule with `post_channel` but without `attachments_color` raises
    ensures matched.Some? && matched.value.postChannel.Present() && matched.value.attachmentsColor.Missing? ==>
              r == Failure(KeyError("attachments_color"))
    // a matched rule replaces both defaults with its own values
    ensures matched.Some? && matched.value.postChannel.Present() && matched.value.attachmentsColor.Present() ==>
              && r.Success?
              && (r.value.channel.Some? <==> matched.value.postChannel.Given?)
              && (matched.value.postChannel.Given? ==> r.value.channel == Some(matched.value.postChannel.text))
              && (r.value.color.Some? <==> matched.value.attachmentsColor.Given?)
              && (matched.value.attachmentsColor.Given? ==> r.value.color == Some(matched.value.attachmentsColor.text))
  {
    match matched
    case None => Success(Routing(Some(DefaultChannel), Some(DefaultColor)))
    case Some(f) =>
      var channel := Lookup(f.postChannel, "post_channel");
      if channel.Failure? then Failure(channel.error)
      else
        var color := Lookup(f.attachmentsColor, "attachments_color");
        if color.Failure? then Failure(color.error)
        else Success(Routing(channel.value, color.value))
  }

  /** Lines 109-118 of `lambda_handler`: start from the defaults, build the
      filter, and take the matched rule's channel and colour. Building the
      filter raises a body decoding error first, then `IndexError` for an
      empty rule list. */
  method Handle(email: Message, filters: seq<Rule>, search: Search, detect: Detector, decode: Decoder)
    returns (r: Result<Routing>)
    ensures BodyOf(email, detect, decode).Failure? ==> r == Failure(BodyOf(email, detect, decode).error)
    ensures BodyOf(email, detect, decode).Success? && filters == [] ==> r == Failure(IndexError)
    ensures BodyOf(email, detect, decode).Success? && filters != [] ==>
              r == Route(Some(SelectAsWritten(filters, TextsFor(email, BodyOf(email, detect, decode).value), search).value))
  {
    var channel: Option<string> := Some(DefaultChannel);
    var color: Option<string> := Some(DefaultColor);
    var body := Body(email, detect, decode);
    if body.Failure? {
      return Failure(body.error);
    }
    if filters == [] {
      return Failure(IndexError);
    }
    var filter := new Filter(email, body.value, filters, search);
    if filter.IsMatched() {
      var f := filter.MatchedRule().value;
      var c := Lookup(f.postChannel, "post_channel");
      if c.Failure? {
        return Failure(c.error);
      }
      channel := c.value;
      var k := Lookup(f.attachmentsColor, "attachments_color");
      if k.Failure? {
        return Failure(k.error);
      }
      color := k.value;
    }
    return Success(Routing(channel, color));
  }

  /** A rule the scan stops at always supplies a real channel: only the
      fallback can route to `None` or fail on `post_channel`. */
  lemma ScannedRuleSuppliesChannel(filters: seq<Rule>, t: Texts, search: Search, k: nat)
    requires FirstMatch(filters, t, search) == Some(k)
    ensures Route(Select(filters, t, search)).Failure? ==>
              Route(Select(filters, t, search)).error == KeyError("attachments_color")
    ensures Route(Select(filters, t, search)).Success? ==>
              Route(Select(filters, t, search)).value.channel == Some(filters[k].postChannel.text)
  {
    assert SelectedIndex(filters, t, search) == Some(k);
  }

  /** The fallback rule is used as it is: without a `post_channel` key it makes
      the handler raise, with `None` and an `attachments_color` key it routes
      to `None`. */
  lemma FallbackRouting(filters: seq<Rule>, t: Texts, search: Search)
    requires filters != []
    requires forall j | 0 <= j < |filters| :: !Matches(filters[j], t, search)
    ensures var last := filters[|filters| - 1];
            && (last.postChannel.Missing? ==> Route(Select(filters, t, search)) == Failure(KeyError("post_channel")))
            && (last.postChannel.Null? && last.attachmentsColor.Present() ==>
                  Route(Select(filters, t, search)).Success? && Route(Select(filters, t, search)).value.channel == None)
  {
    FallbackIsLast(filters, t, search);
  }

  /** With the corrected selection, an empty rule list routes to the defaults. */
  lemma EmptyRuleListRoutesToDefaults(t: Texts, search: Search)
    ensures Route(Select([], t, search)) == Success(Routing(Some(DefaultChannel), Some(DefaultColor)))
  {
  }

  /** Two rules with a sender pattern: a message from a matching sender goes
      to the first rule's channel, any other message to the last rule's. */
  lemma SenderRoutingExample(search: Search, alerts: Texts, other: Texts)
    requires search("alerts@", alerts.sender)
    requires !search("alerts@", other.sender)
    ensures var ops := Rule(Missing, Missing, Given("alerts@"), Missing, Missing, Given("#ops"), Given("danger"));
            var general := Rule(Missing, Missing, Missing, Missing, Missing, Given("#general"), Given("good"));
            && Route(Select([ops, general], alerts, search)) == Success(Routing(Some("#ops"), Some("danger")))
            && Route(Select([ops, general], other, search)) == Success(Routing(Some("#general"), Some("good")))
  {
    var ops := Rule(Missing, Missing, Given("alerts@"), Missing, Missing, Given("#ops"), Given("danger"));
    var general := Rule(Missing, Missing, Missing, Missing, Missing, Given("#general"), Given("good"));
    FirstMatchingRuleWins([ops, general], alerts, search, 0);
    assert !Matches(ops, other, search);
    assert !Matches(general, other, search);
    FallbackIsLast([ops, general], other, search);
  }
}
