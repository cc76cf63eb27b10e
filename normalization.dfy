/** The normalised full text that the `including_words` and `excluded_words`
    patterns are searched in: sender, recipient, subject and body joined, with
    every line feed, carriage return and space removed by three successive
    `str.replace` calls. */
module Normalization {

  /** The characters the normalisation removes; tabs and other white space stay. */
  predicate IsStripped(c: char) {
    c == '\n' || c == '\r' || c == ' '
  }

  /** `s.replace(c, '')`: `s` with every occurrence of `c` removed. */
  function Remove(s: string, c: char): (r: string)
    ensures c !in r
    ensures |r| <= |s|
  {
    if s == [] then [] else (if s[0] == c then [] else [s[0]]) + Remove(s[1..], c)
  }

  /** The three `replace` calls of `Filter.__init__`, in their order. */
  function Normalize(s: string): string {
    Remove(Remove(Remove(s, '\n'), '\r'), ' ')
  }

  /** The full text of a message. */
  function Fulltext(sender: string, recipient: string, subject: string, body: string): string {
    Normalize(sender + recipient + subject + body)
  }

  /** A one-pass reference definition: keep exactly the characters that are not
      stripped, in their order. */
  function Squeeze(s: string): string {
    if s == [] then [] else (if IsStripped(s[0]) then [] else [s[0]]) + Squeeze(s[1..])
  }

  /** `a` is `b` with some characters left out, the rest in their order. */
  predicate IsSubsequence(a: string, b: string) {
    if a == [] then true
    else if b == [] then false
    else (a[0] == b[0] && IsSubsequence(a[1..], b[1..])) || IsSubsequence(a, b[1..])
  }

  lemma {:induction false} RemoveAppend(a: string, b: string, c: char)
    ensures Remove(a + b, c) == Remove(a, c) + Remove(b, c)
  {
    if a != [] {
      var head := if a[0] == c then [] else [a[0]];
      assert (a + b)[0] == a[0] && (a + b)[1..] == a[1..] + b;
      RemoveAppend(a[1..], b, c);
      calc {
        Remove(a + b, c);
        head + Remove(a[1..] + b, c);
        head + (Remove(a[1..], c) + Remove(b, c));
        (head + Remove(a[1..], c)) + Remove(b, c);
        Remove(a, c) + Remove(b, c);
      }
    } else {
      assert a + b == b;
    }
  }

  /** The three successive removals agree with the one-pass definition. */
  lemma {:induction false} NormalizeIsSqueeze(s: string)
    ensures Normalize(s) == Squeeze(s)
  {
    if s != [] {
      var head := [s[0]];
      assert s == head + s[1..];
      RemoveAppend(head, s[1..], '\n');
      RemoveAppend(Remove(head, '\n'), Remove(s[1..], '\n'), '\r');
      RemoveAppend(Remove(Remove(head, '\n'), '\r'), Remove(Remove(s[1..], '\n'), '\r'), ' ');
      NormalizeIsSqueeze(s[1..]);
    }
  }

  /** The one-pass definition contains no stripped character and is no longer
      than its input. */
  lemma {:induction false} SqueezeStrips(s: string)
    ensures forall c | c in Squeeze(s) :: !IsStripped(c)
    ensures |Squeeze(s)| <= |s|
  {
    if s != [] {
      SqueezeStrips(s[1..]);
    }
  }

  /** The one-pass definition keeps the count of every character it does not strip. */
  lemma {:induction false} SqueezeKeepsCounts(s: string, c: char)
    requires !IsStripped(c)
    ensures multiset(Squeeze(s))[c] == multiset(s)[c]
  {
    if s != [] {
      SqueezeKeepsCounts(s[1..], c);
      assert s == [s[0]] + s[1..];
      var head := if IsStripped(s[0]) then [] else [s[0]];
      assert multiset(s) == multiset([s[0]]) + multiset(s[1..]);
      assert multiset(Squeeze(s)) == multiset(head) + multiset(Squeeze(s[1..]));
    }
  }

  /** The one-pass definition keeps the order of what it keeps. */
  lemma {:induction false} SqueezeKeepsOrder(s: string)
    ensures IsSubsequence(Squeeze(s), s)
  {
    if s != [] {
      SqueezeKeepsOrder(s[1..]);
      if !IsStripped(s[0]) {
        assert Squeeze(s) == [s[0]] + Squeeze(s[1..]);
        assert Squeeze(s)[0] == s[0] && Squeeze(s)[1..] == Squeeze(s[1..]);
      } else {
        assert Squeeze(s) == Squeeze(s[1..]);
      }
    }
  }

  /** What the full text is: the joined fields without line feeds, carriage
      returns and spaces, every other character kept, in order. */
  lemma FulltextContents(sender: string, recipient: string, subject: string, body: string)
    ensures var joined := sender + recipient + subject + body;
            var text := Fulltext(sender, recipient, subject, body);
            && text == Squeeze(joined)
            && '\n' !in text && '\r' !in text && ' ' !in text
            && (forall c | !IsStripped(c) :: multiset(text)[c] == multiset(joined)[c])
            && IsSubsequence(text, joined)
            && |text| <= |joined|
  {
    var joined := sender + recipient + subject + body;
    var text := Fulltext(sender, recipient, subject, body);
    NormalizeIsSqueeze(joined);
    SqueezeStrips(joined);
    SqueezeKeepsOrder(joined);
    forall c | !IsStripped(c) ensures multiset(text)[c] == multiset(joined)[c] {
      SqueezeKeepsCounts(joined, c);
    }
  }
}
