/** The interactive yes/no gate used before overwriting. The operator's
    answers are an input stream; each prompt consumes answers from its front. */
module Prompt {
  import opened Strings

  datatype Answer = Yes | No | Unrecognised

  /** The answer after lower-casing: "y"/"yes" and "n"/"no" are recognised. */
  function Classify(response: string): Answer {
    var r := Lower(response);
    if r == "y" || r == "yes" then Yes
    else if r == "n" || r == "no" then No
    else Unrecognised
  }

  /** The spellings of yes, written out letter by letter. */
  predicate YesSpelling(s: string) {
    || (|s| == 1 && s[0] in {'y', 'Y'})
    || (|s| == 3 && s[0] in {'y', 'Y'} && s[1] in {'e', 'E'} && s[2] in {'s', 'S'})
  }

  /** The spellings of no, written out letter by letter. */
  predicate NoSpelling(s: string) {
    || (|s| == 1 && s[0] in {'n', 'N'})
    || (|s| == 2 && s[0] in {'n', 'N'} && s[1] in {'o', 'O'})
  }

  lemma LowerCharIs(c: char, l: char)
    requires 'a' <= l <= 'z'
    ensures LowerChar(c) == l <==> c == l || c as int == l as int - 32
  {
  }

  /** An answer is classified yes exactly for the case variants of "y" and "yes". */
  lemma ClassifyYes(s: string)
    ensures Classify(s) == Yes <==> YesSpelling(s)
  {
    var r := Lower(s);
    if |s| == 1 {
      LowerCharIs(s[0], 'y');
      assert r == "y" <==> r[0] == 'y';
    } else if |s| == 3 {
      LowerCharIs(s[0], 'y');
      LowerCharIs(s[1], 'e');
      LowerCharIs(s[2], 's');
      assert r == "yes" <==> r[0] == 'y' && r[1] == 'e' && r[2] == 's';
    }
  }

  /** An answer is classified no exactly for the case variants of "n" and "no". */
  lemma ClassifyNo(s: string)
    ensures Classify(s) == No <==> NoSpelling(s)
  {
    var r := Lower(s);
    ClassifyYes(s);
    if |s| == 1 {
      LowerCharIs(s[0], 'n');
      assert r == "n" <==> r[0] == 'n';
    } else if |s| == 2 {
      LowerCharIs(s[0], 'n');
      LowerCharIs(s[1], 'o');
      assert r == "no" <==> r[0] == 'n' && r[1] == 'o';
    }
  }

  /** The outcome of a prompt: the decision and the answers left over, or an
      abort of the whole process. */
  datatype Reply = Confirmed(yes: bool, rest: seq<string>) | Aborted

  /** One prompt that accepts only a recognised first answer; an unrecognised
      answer or the end of input ends the process. */
  function AskOnce(answers: seq<string>): (r: Reply)
    ensures r.Confirmed? <==> answers != [] && Classify(answers[0]) != Unrecognised
    ensures r.Confirmed? ==> r.rest == answers[1..] && (r.yes <==> YesSpelling(answers[0]))
  {
    if answers == [] then Aborted
    else
      ClassifyYes(answers[0]);
      match Classify(answers[0])
      case Yes => Confirmed(true, answers[1..])
      case No => Confirmed(false, answers[1..])
      case Unrecognised => Aborted
  }

  /** No answer read as a decision, those at even positions before `k`, is
      recognised. */
  predicate NoneRecognisedBefore(answers: seq<string>, k: int)
    requires k <= |answers|
  {
    forall j :: 0 <= j < k && j % 2 == 0 ==> Classify(answers[j]) == Unrecognised
  }

  /** Skipping an unrecognised answer and its acknowledgement shifts the
      positions read as decisions by two. */
  lemma NoneRecognisedShift(answers: seq<string>, k: int)
    requires |answers| >= 2 && 2 <= k <= |answers|
    requires Classify(answers[0]) == Unrecognised
    ensures NoneRecognisedBefore(answers, k) <==> NoneRecognisedBefore(answers[2..], k - 2)
  {
    if NoneRecognisedBefore(answers[2..], k - 2) {
      forall j | 0 <= j < k && j % 2 == 0 ensures Classify(answers[j]) == Unrecognised {
        if j >= 2 {
          assert answers[j] == answers[2..][j - 2];
        }
      }
    }
    if NoneRecognisedBefore(answers, k) {
      forall j | 0 <= j < k - 2 && j % 2 == 0 ensures Classify(answers[2..][j]) == Unrecognised {
        assert answers[2..][j] == answers[j + 2];
      }
    }
  }

  /** The decision was read from the answer at `k`, the first recognised
      one at an even position, and `rest` is what follows it. */
  predicate DecidedAt(answers: seq<string>, rest: seq<string>, yes: bool) {
    && |rest| < |answers|
    && var k := |answers| - |rest| - 1;
    && k % 2 == 0
    && answers[k + 1..] == rest
    && Classify(answers[k]) != Unrecognised
    && (yes <==> YesSpelling(answers[k]))
    && NoneRecognisedBefore(answers, k)
  }

  lemma DecidedShift(answers: seq<string>, rest: seq<string>, yes: bool)
    requires |answers| >= 2 && Classify(answers[0]) == Unrecognised
    requires DecidedAt(answers[2..], rest, yes)
    ensures DecidedAt(answers, rest, yes)
  {
    var k := |answers| - |rest| - 1;
    assert answers[2..][k - 2] == answers[k];
    assert answers[2..][k - 1..] == answers[k + 1..];
    NoneRecognisedShift(answers, k);
  }

  /** A prompt that re-asks after an unrecognised answer. Each unrecognised
      answer is followed by an acknowledgement line whose content is ignored,
      so the answers read as decisions are those at even positions; running
      out of input ends the process. */
  function AskUntilRecognised(answers: seq<string>): (r: Reply)
    ensures r.Aborted? <==> NoneRecognisedBefore(answers, |answers|)
    ensures r.Confirmed? ==> DecidedAt(answers, r.rest, r.yes)
    decreases |answers|
  {
    if answers == [] then Aborted
    else
      ClassifyYes(answers[0]);
      match Classify(answers[0])
      case Yes => Confirmed(true, answers[1..])
      case No => Confirmed(false, answers[1..])
      case Unrecognised =>
        if |answers| < 2 then Aborted
        else
          var r := AskUntilRecognised(answers[2..]);
          NoneRecognisedShift(answers, |answers|);
          if r.Confirmed? then DecidedShift(answers, r.rest, r.yes); r else r
  }
}
