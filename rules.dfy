/** The rule matcher of class `Filter`: a first-match scan over an ordered list
    of rule dictionaries, falling back to the last rule. The regular-expression
    engine is a parameter. */
module Rules {
  import opened Wrappers

  /** The value of one key of a rule dictionary: the key is absent, it is
      present with the value `None`, or it holds a string. */
  datatype Entry = Missing | Null | Given(text: string) {
    predicate Present() {
      !Missing?
    }
  }

  /** A rule dictionary; each field is named after the key it stands for. */
  datatype Rule = Rule(
    includingWords: Entry,   // including_words
    excludedWords: Entry,    // excluded_words
    sender: Entry,           // from
    recipient: Entry,        // to
    subject: Entry,          // subject
    postChannel: Entry,      // post_channel
    attachmentsColor: Entry) // attachments_color

  /** The texts a `Filter` matches against: the three decoded headers as they
      are, and the normalised full text. */
  datatype Texts = Texts(sender: string, recipient: string, subject: string, fulltext: string)

  /** The case-insensitive regular-expression search: does the pattern (first
      argument) match somewhere in the text (second argument)? */
  type Search = (string, string) -> bool

  /** `Filter.__is_matched`, read as a truth value: the key holds a pattern
      and the pattern is found in the text. */
  predicate Hit(e: Entry, text: string, search: Search) {
    e.Given? && search(e.text, text)
  }

  /** Only a rule whose `post_channel` holds a value takes part in the scan. */
  predicate IsEligible(r: Rule) {
    r.postChannel.Given?
  }

  /** The `including_words`/`excluded_words` decision table, on key presence. */
  predicate WordsMatch(r: Rule, fulltext: string, search: Search) {
    var including, excluded := r.includingWords, r.excludedWords;
    if including.Present() && excluded.Present() then
      Hit(including, fulltext, search) && !Hit(excluded, fulltext, search)
    else if including.Present() then
      Hit(including, fulltext, search)
    else if excluded.Present() then
      Hit(excluded, fulltext, search)
    else
      false
  }

  /** The header patterns, each searched in its own original header. */
  predicate HeadersMatch(r: Rule, t: Texts, search: Search) {
    || Hit(r.sender, t.sender, search)
    || Hit(r.recipient, t.recipient, search)
    || Hit(r.subject, t.subject, search)
  }

  /** A rule the scan returns when it reaches it. */
  predicate Matches(r: Rule, t: Texts, search: Search) {
    IsEligible(r) && (WordsMatch(r, t.fulltext, search) || HeadersMatch(r, t, search))
  }

  /** The index the scan stops at, if any rule matches: the first matching one. */
  function FirstMatch(rules: seq<Rule>, t: Texts, search: Search): (r: Option<nat>)
    ensures r.Some? ==>
              && r.value < |rules|
              && Matches(rules[r.value], t, search)
              && forall j | 0 <= j < r.value :: !Matches(rules[j], t, search)
    ensures r.None? ==> forall j | 0 <= j < |rules| :: !Matches(rules[j], t, search)
  {
    if rules == [] then None
    else if Matches(rules[0], t, search) then Some(0)
    else
      match FirstMatch(rules[1..], t, search)
      case None => None
      case Some(i) => Some(i + 1)
  }

  /** The index of the rule `__matched_filter` returns, corrected so that the
      empty list yields no rule instead of raising (see `SelectAsWritten`). */
  function SelectedIndex(rules: seq<Rule>, t: Texts, search: Search): (r: Option<nat>)
    ensures r.None? <==> rules == []
    ensures r.Some? ==> r.value < |rules|
  {
    if rules == [] then None
    else
      match FirstMatch(rules, t, search)
      case Some(i) => Some(i)
      case None => Some(|rules| - 1)
  }

  /** The corrected selection: the rule `__matched_filter` returns, or `None`
      for the empty list. */
  function Select(rules: seq<Rule>, t: Texts, search: Search): (r: Option<Rule>)
    ensures r.None? <==> rules == []
    ensures r.Some? ==> r.value in rules
  {
    match SelectedIndex(rules, t, search)
    case None => None
    case Some(i) => Some(rules[i])
  }

  /** `__matched_filter` as written: `filters[-1]` raises on the empty list. */
  function SelectAsWritten(rules: seq<Rule>, t: Texts, search: Search): (r: Result<Rule>)
    ensures r.Failure? <==> rules == []
    ensures r.Failure? ==> r.error == IndexError
    ensures r.Success? ==> r.value in rules
  {
    match FirstMatch(rules, t, search)
    case Some(i) => Success(rules[i])
    case None => if rules == [] then Failure(IndexError) else Success(rules[|rules| - 1])
  }

  /** `Filter.__matched_filter`: try the rules in order and return the first
      eligible one whose word or header patterns match; otherwise the last,
      which raises `IndexError` when there is none. */
  method MatchedFilter(filters: seq<Rule>, t: Texts, search: Search) returns (r: Result<Rule>)
    ensures r == SelectAsWritten(filters, t, search)
  {
    for i := 0 to |filters|
      invariant forall j | 0 <= j < i :: !Matches(filters[j], t, search)
    {
      var f := filters[i];
      if !f.postChannel.Present() || f.postChannel.Null? {
        continue;
      }
      var including, excluded := f.includingWords, f.excludedWords;
      if including.Present() && excluded.Present() {
        if Hit(including, t.fulltext, search) && !Hit(excluded, t.fulltext, search) {
          return Success(f);
        }
      } else if including.Present() && !excluded.Present() {
        if Hit(including, t.fulltext, search) {
          return Success(f);
        }
      } else if !including.Present() && excluded.Present() {
        if Hit(excluded, t.fulltext, search) {
          return Success(f);
        }
      }
      if Hit(f.sender, t.sender, search) || Hit(f.recipient, t.recipient, search)
         || Hit(f.subject, t.subject, search) {
        return Success(f);
      }
    }
    if |filters| == 0 {
      return Failure(IndexError);
    }
    return Success(filters[|filters| - 1]);
  }

  // ---- The decision table ----

  /** A key present with the value `None` never matches. */
  lemma NullNeverHits(e: Entry, text: string, search: Search)
    requires e.Null?
    ensures !Hit(e, text, search)
  {
  }

  /** The four rows of the `including_words`/`excluded_words` table. Note the
      third: `excluded_words` alone is a positive condition. */
  lemma WordsDecisionTable(r: Rule, fulltext: string, search: Search)
    ensures r.includingWords.Present() && r.excludedWords.Present() ==>
              (WordsMatch(r, fulltext, search) <==>
                 Hit(r.includingWords, fulltext, search) && !Hit(r.excludedWords, fulltext, search))
    ensures r.includingWords.Present() && r.excludedWords.Missing? ==>
              (WordsMatch(r, fulltext, search) <==> Hit(r.includingWords, fulltext, search))
    ensures r.includingWords.Missing? && r.excludedWords.Present() ==>
              (WordsMatch(r, fulltext, search) <==> Hit(r.excludedWords, fulltext, search))
    ensures r.includingWords.Missing? && r.excludedWords.Missing? ==> !WordsMatch(r, fulltext, search)
  {
  }

  /** Both keys present and `excluded_words` equal to `None`: only the include
      pattern decides. */
  lemma ExcludedNullReducesToInclude(r: Rule, fulltext: string, search: Search)
    requires r.includingWords.Present() && r.excludedWords.Null?
    ensures WordsMatch(r, fulltext, search) <==> Hit(r.includingWords, fulltext, search)
  {
  }

  /** `including_words` equal to `None` makes the word test fail, whatever
      `excluded_words` holds. */
  lemma IncludedNullNeverMatchesWords(r: Rule, fulltext: string, search: Search)
    requires r.includingWords.Null?
    ensures !WordsMatch(r, fulltext, search)
  {
  }

  /** A header pattern found in its header makes an eligible rule match, even
      when the word test fails. */
  lemma HeadersRescue(r: Rule, t: Texts, search: Search)
    requires IsEligible(r) && !WordsMatch(r, t.fulltext, search)
    ensures Matches(r, t, search) <==> HeadersMatch(r, t, search)
  {
  }

  // ---- The scan ----

  /** A rule without a usable `post_channel` is selected only as the fallback:
      it is the last rule and no rule matched. */
  lemma IneligibleOnlyAsFallback(rules: seq<Rule>, t: Texts, search: Search, k: nat)
    requires SelectedIndex(rules, t, search) == Some(k)
    requires !IsEligible(rules[k])
    ensures k == |rules| - 1
    ensures forall j | 0 <= j < |rules| :: !Matches(rules[j], t, search)
  {
  }

  /** The first matching rule is the one selected. */
  lemma FirstMatchingRuleWins(rules: seq<Rule>, t: Texts, search: Search, i: nat)
    requires i < |rules| && Matches(rules[i], t, search)
    requires forall j | 0 <= j < i :: !Matches(rules[j], t, search)
    ensures SelectedIndex(rules, t, search) == Some(i)
  {
  }

  /** Of two matching rules the earlier is preferred: the later one is never
      selected. */
  lemma EarlierMatchWins(rules: seq<Rule>, t: Texts, search: Search, i: nat, j: nat)
    requires i < j < |rules|
    requires Matches(rules[i], t, search) && Matches(rules[j], t, search)
    ensures SelectedIndex(rules, t, search).Some?
    ensures SelectedIndex(rules, t, search).value <= i
    ensures Select(rules, t, search) == Some(rules[SelectedIndex(rules, t, search).value])
  {
  }

  /** No rule after the selected one is examined: replacing everything after
      it changes nothing. */
  lemma {:induction false} LaterRulesIgnored(rules: seq<Rule>, t: Texts, search: Search, k: nat, rest: seq<Rule>)
    requires FirstMatch(rules, t, search) == Some(k)
    ensures FirstMatch(rules[..k + 1] + rest, t, search) == Some(k)
    ensures Select(rules[..k + 1] + rest, t, search) == Select(rules, t, search)
  {
    var other := rules[..k + 1] + rest;
    assert forall j | 0 <= j <= k :: other[j] == rules[j];
    FirstMatchingRuleWins(other, t, search, k);
  }

  /** With no rule matching, the last rule is the result. */
  lemma FallbackIsLast(rules: seq<Rule>, t: Texts, search: Search)
    requires rules != []
    requires forall j | 0 <= j < |rules| :: !Matches(rules[j], t, search)
    ensures SelectedIndex(rules, t, search) == Some(|rules| - 1)
    ensures Select(rules, t, search) == Some(rules[|rules| - 1])
  {
  }

  /** The code as written raises `IndexError` on the empty rule list. */
  lemma EmptyRuleListRaises(t: Texts, search: Search)
    ensures SelectAsWritten([], t, search) == Failure(IndexError)
    ensures Select([], t, search) == None
  {
  }

  /** On a non-empty list the corrected selection agrees with the code. */
  lemma SelectAgreesWithCode(rules: seq<Rule>, t: Texts, search: Search)
    requires rules != []
    ensures SelectAsWritten(rules, t, search) == Success(Select(rules, t, search).value)
  {
  }
}
