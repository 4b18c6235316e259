/** The interactive prompts: reading the deletion thresholds and the two
    yes/no switches, and the final typed confirmation.

    Each prompt re-asks until an answer is acceptable. The console is a
    finite sequence of answer lines; running out of lines is `None`, where
    the program would stop on end of input. */
module Prompts {
  import opened Common
  import opened Text
  import opened Filter

  /** What one answer line makes a prompt do. */
  datatype Reply<T> = Accept(value: T) | Reask

  /** The first accepted answer of a prompt and the index of the first line
      after it. */
  datatype Asked<T> = Asked(value: T, next: nat)

  datatype Parameters = Parameters(criteria: Criteria, dryRun: bool)

  /** A line is all whitespace exactly when stripping empties it. */
  lemma BlankStrip(s: string)
    ensures Blank(s) <==> Strip(s) == ""
  {
    if Blank(s) {
      StripOfCore(s, [], |s|);
    }
  }

  // ---------------------------------------------------------------------
  // Classifying one answer line
  // ---------------------------------------------------------------------

  /** A threshold answer (days, likes or reposts): the stripped line read
      with `int()`; a value below zero or an unreadable line is asked
      again. Zero is accepted. */
  function ThresholdReply(input: string): (r: Reply<nat>)
    ensures r.Accept? ==> |Strip(input)| > 0
    ensures r.Accept? ==> ParseInt(Strip(input)) == Some(r.value as int)
    ensures ParseInt(Strip(input)).Some? && ParseInt(Strip(input)).value >= 0 ==> r.Accept?
    ensures Blank(input) ==> r.Reask?
  {
    BlankStrip(input);
    match ParseInt(Strip(input))
    case Some(n) => if n < 0 then Reask else Accept(n)
    case None => Reask
  }

  /** A `[Y/n]` answer, stripped and lower-cased: empty, `y` or `yes` is
      yes; `n` or `no` is no; anything else is asked again. */
  function YesNoReply(input: string): (r: Reply<bool>)
    ensures Blank(input) ==> r == Accept(true)
    ensures r == Accept(true) <==> Lower(Strip(input)) in {"", "y", "yes"}
    ensures r == Accept(false) <==> Lower(Strip(input)) in {"n", "no"}
  {
    BlankStrip(input);
    var a := Lower(Strip(input));
    if a == "" || a == "y" || a == "yes" then Accept(true)
    else if a == "n" || a == "no" then Accept(false)
    else Reask
  }

  /** The words that cancel the deletion, compared after lower-casing. */
  predicate CancelWord(a: string) {
    a == "n" || a == "no" || a == "cancel" || a == "exit"
  }

  /** The deletion confirmation: exactly `DELETE` (after stripping, with
      case respected) confirms; a cancel word in any case declines;
      anything else is asked again. */
  function ConfirmReply(input: string): (r: Reply<bool>)
    ensures r == Accept(true) <==> Strip(input) == "DELETE"
    ensures r == Accept(false) <==> Strip(input) != "DELETE" && CancelWord(Lower(Strip(input)))
    ensures Blank(input) ==> r.Reask?
  {
    BlankStrip(input);
    if Strip(input) == "DELETE" then Accept(true)
    else if CancelWord(Lower(Strip(input))) then Accept(false)
    else Reask
  }

  // ---------------------------------------------------------------------
  // The re-asking loop
  // ---------------------------------------------------------------------

  /** Reads answer lines from index `from` on until `classify` accepts one. */
  function Ask<T>(answers: seq<string>, from: nat, classify: string -> Reply<T>): (r: Option<Asked<T>>)
    requires from <= |answers|
    ensures r.Some? ==> from < r.value.next <= |answers|
    ensures r.Some? ==> classify(answers[r.value.next - 1]) == Accept(r.value.value)
    ensures r.Some? ==> forall k :: from <= k < r.value.next - 1 ==> classify(answers[k]).Reask?
    ensures r.None? <==> forall k :: from <= k < |answers| ==> classify(answers[k]).Reask?
    decreases |answers| - from
  {
    if from == |answers| then None
    else
      match classify(answers[from])
      case Accept(v) => Some(Asked(v, from + 1))
      case Reask => Ask(answers, from + 1, classify)
  }

  /** The prompt settles on the first line it accepts. */
  lemma AskFindsFirst<T>(answers: seq<string>, from: nat, classify: string -> Reply<T>, k: nat)
    requires from <= k < |answers|
    requires classify(answers[k]).Accept?
    requires forall j :: from <= j < k ==> classify(answers[j]).Reask?
    ensures Ask(answers, from, classify) == Some(Asked(classify(answers[k]).value, k + 1))
  {
    var r := Ask(answers, from, classify);
    assert r.Some?;
    assert r.value.next - 1 == k by {
      assert !(r.value.next - 1 < k);
    }
  }

  /** Line `k` is the first line from `from` on that `classify` accepts. */
  predicate FirstAccepted<T>(answers: seq<string>, from: nat, k: nat, classify: string -> Reply<T>) {
    && from <= k < |answers|
    && classify(answers[k]).Accept?
    && forall j :: from <= j < k ==> classify(answers[j]).Reask?
  }

  /** Lines the prompt rejects are skipped without effect. */
  lemma AskSkipsRejected<T>(answers: seq<string>, from: nat, classify: string -> Reply<T>)
    requires from < |answers|
    requires classify(answers[from]).Reask?
    ensures Ask(answers, from, classify) == Ask(answers, from + 1, classify)
  {
  }

  // ---------------------------------------------------------------------
  // The two prompt sequences
  // ---------------------------------------------------------------------

  /** The five parameter prompts in order, reading from line `from`:
      days, likes, reposts, keep images, dry run. Each consumes lines until
      it accepts one; each stage below is "the prompts still to come". */
  function GetParametersFrom(answers: seq<string>, from: nat): (r: Option<Parameters>)
    requires from <= |answers|
    ensures r.Some? ==> from + 5 <= |answers|
    ensures r.Some? ==> Ask(answers, from, ThresholdReply).Some?
  {
    var days :- Ask(answers, from, ThresholdReply);
    AskLikes(answers, days.next, days.value)
  }

  function AskLikes(answers: seq<string>, from: nat, days: nat): (r: Option<Parameters>)
    requires from <= |answers|
    ensures r.Some? ==> from + 4 <= |answers|
    ensures r.Some? ==> r.value.criteria.daysThreshold == days
    ensures r.Some? ==> Ask(answers, from, ThresholdReply).Some?
  {
    var likes :- Ask(answers, from, ThresholdReply);
    AskReposts(answers, likes.next, days, likes.value)
  }

  function AskReposts(answers: seq<string>, from: nat, days: nat, likes: nat): (r: Option<Parameters>)
    requires from <= |answers|
    ensures r.Some? ==> from + 3 <= |answers|
    ensures r.Some? ==> r.value.criteria.daysThreshold == days && r.value.criteria.minLikes == likes
    ensures r.Some? ==> Ask(answers, from, ThresholdReply).Some?
  {
    var reposts :- Ask(answers, from, ThresholdReply);
    AskImages(answers, reposts.next, days, likes, reposts.value)
  }

  function AskImages(answers: seq<string>, from: nat, days: nat, likes: nat, reposts: nat): (r: Option<Parameters>)
    requires from <= |answers|
    ensures r.Some? ==> from + 2 <= |answers|
    ensures r.Some? ==> r.value.criteria.daysThreshold == days && r.value.criteria.minLikes == likes
    ensures r.Some? ==> r.value.criteria.minReposts == reposts
    ensures r.Some? ==> Ask(answers, from, YesNoReply).Some?
  {
    var images :- Ask(answers, from, YesNoReply);
    AskDryRun(answers, images.next, Criteria(days, likes, reposts, images.value))
  }

  function AskDryRun(answers: seq<string>, from: nat, criteria: Criteria): (r: Option<Parameters>)
    requires from <= |answers|
    ensures r.Some? ==> from + 1 <= |answers| && r.value.criteria == criteria
    ensures r.Some? <==> Ask(answers, from, YesNoReply).Some?
  {
    var dry :- Ask(answers, from, YesNoReply);
    Some(Parameters(criteria, dry.value))
  }

  /** The parameter prompts on a fresh console. */
  function GetParameters(answers: seq<string>): (r: Option<Parameters>)
    ensures r.Some? ==> 5 <= |answers|
  {
    GetParametersFrom(answers, 0)
  }

  /** The confirmation prompt: `Some(true)` to go ahead, `Some(false)` to
      cancel. */
  function ConfirmDeletion(answers: seq<string>): (r: Option<bool>)
    ensures r == Some(true) ==> exists k :: 0 <= k < |answers| && Strip(answers[k]) == "DELETE"
    ensures r.None? <==> forall k :: 0 <= k < |answers| ==> ConfirmReply(answers[k]).Reask?
  {
    match Ask(answers, 0, ConfirmReply)
    case Some(a) => Some(a.value)
    case None => None
  }

  // ---------------------------------------------------------------------
  // Properties of the answers
  // ---------------------------------------------------------------------

  lemma ShowIntTrimmed(n: int)
    ensures Strip(ShowInt(n)) == ShowInt(n)
  {
    var s := ShowInt(n);
    var digits := ShowNat(if n < 0 then -n else n);
    assert s[|s| - 1] == digits[|digits| - 1];
    assert !IsSpace(s[0]);
    StripOfCore(s, s, 0);
  }

  /** A number typed with any surrounding whitespace is read back as that
      number; negative numbers are asked again. */
  lemma ThresholdOfNumber(a: string, n: int, b: string)
    requires Blank(a) && Blank(b)
    ensures ThresholdReply(a + ShowInt(n) + b) == if n < 0 then Reask else Accept(n)
  {
    StripIgnoresPadding(a, ShowInt(n), b);
    ShowIntTrimmed(n);
    ParseShowRoundTrip(n);
    assert !Blank(a + ShowInt(n) + b) by {
      var s := ShowInt(n);
      assert (a + s + b)[|a|] == s[0];
      assert !IsSpace(s[0]) by {
        StripOfCore(s, s, 0);
      }
    }
  }

  lemma YesNoIgnoresPadding(a: string, w: string, b: string)
    requires Blank(a) && Blank(b)
    ensures YesNoReply(a + w + b) == YesNoReply(w)
  {
    StripIgnoresPadding(a, w, b);
  }

  /** The yes/no prompts do not care about letter case. */
  lemma YesNoIgnoresCase(s: string)
    ensures YesNoReply(Lower(s)) == YesNoReply(s)
  {
    LowerStripCommute(s);
    LowerIdempotent(Strip(s));
    forall i | 0 <= i < |s|
      ensures IsSpace(Lower(s)[i]) <==> IsSpace(s[i])
    {
      LowerCharOfSpace(s[i]);
    }
  }

  lemma ConfirmIgnoresPadding(a: string, w: string, b: string)
    requires Blank(a) && Blank(b)
    ensures ConfirmReply(a + w + b) == ConfirmReply(w)
  {
    StripIgnoresPadding(a, w, b);
  }

  /** The confirmation is case-sensitive: `delete` in any other spelling
      than all capitals is not accepted. */
  lemma ConfirmNeedsCapitals(a: string, b: string)
    requires Blank(a) && Blank(b)
    ensures ConfirmReply(a + "delete" + b) == Reask
  {
    ConfirmIgnoresPadding(a, "delete", b);
    LowercaseDeleteRejected();
  }

  lemma LowercaseDeleteRejected()
    ensures ConfirmReply("delete") == Reask
  {
    StripOfCore("delete", "delete", 0);
    var low := Lower("delete");
    assert low[0] == LowerChar('d') == 'd';
    assert |low| == 6 && low != "cancel";
  }

  /** Cancelling, unlike confirming, ignores letter case. */
  lemma CancelIgnoresCase(s: string)
    ensures ConfirmReply(s) == Accept(false) <==>
            Strip(s) != "DELETE" && ConfirmReply(Lower(s)) == Accept(false)
  {
    LowerStripCommute(s);
    LowerIdempotent(Strip(s));
    var ls := Strip(Lower(s));
    assert ls != "DELETE" by {
      if |ls| > 0 {
        assert !IsUpper(ls[0]);
        assert IsUpper("DELETE"[0]);
      }
    }
  }

  /** The confirmation ends on the first decisive line, and it goes ahead
      exactly when that line is `DELETE`. */
  lemma ConfirmFirstDecisive(answers: seq<string>, k: nat)
    requires k < |answers|
    requires forall j :: 0 <= j < k ==> ConfirmReply(answers[j]).Reask?
    requires ConfirmReply(answers[k]).Accept?
    ensures ConfirmDeletion(answers) == Some(Strip(answers[k]) == "DELETE")
  {
    AskFindsFirst(answers, 0, ConfirmReply, k);
  }

  /** Five acceptable lines in a row give the parameters they spell out. */
  lemma ParametersFromFiveAnswers(answers: seq<string>, days: nat, likes: nat, reposts: nat,
                                  images: bool, dry: bool)
    requires 5 <= |answers|
    requires ThresholdReply(answers[0]) == Accept(days)
    requires ThresholdReply(answers[1]) == Accept(likes)
    requires ThresholdReply(answers[2]) == Accept(reposts)
    requires YesNoReply(answers[3]) == Accept(images)
    requires YesNoReply(answers[4]) == Accept(dry)
    ensures GetParameters(answers) == Some(Parameters(Criteria(days, likes, reposts, images), dry))
  {
    AskFindsFirst(answers, 0, ThresholdReply, 0);
    AskFindsFirst(answers, 1, ThresholdReply, 1);
    AskFindsFirst(answers, 2, ThresholdReply, 2);
    AskFindsFirst(answers, 3, YesNoReply, 3);
    AskFindsFirst(answers, 4, YesNoReply, 4);
  }

  function Shifted<T>(r: Option<Asked<T>>): Option<Asked<T>> {
    match r
    case Some(a) => Some(Asked(a.value, a.next + 1))
    case None => None
  }

  /** One extra line in front moves every answer one place on. */
  lemma {:induction false} AskShift<T>(x: string, answers: seq<string>, from: nat, classify: string -> Reply<T>)
    requires from <= |answers|
    ensures Ask([x] + answers, from + 1, classify) == Shifted(Ask(answers, from, classify))
    decreases |answers| - from
  {
    if from < |answers| {
      assert ([x] + answers)[from + 1] == answers[from];
      AskShift(x, answers, from + 1, classify);
    }
  }

  lemma DryRunShift(x: string, answers: seq<string>, from: nat, criteria: Criteria)
    requires from <= |answers|
    ensures AskDryRun([x] + answers, from + 1, criteria) == AskDryRun(answers, from, criteria)
  {
    AskShift(x, answers, from, YesNoReply);
  }

  lemma ImagesShift(x: string, answers: seq<string>, from: nat, days: nat, likes: nat, reposts: nat)
    requires from <= |answers|
    ensures AskImages([x] + answers, from + 1, days, likes, reposts) == AskImages(answers, from, days, likes, reposts)
  {
    AskShift(x, answers, from, YesNoReply);
    var a := Ask(answers, from, YesNoReply);
    if a.Some? {
      var c := Criteria(days, likes, reposts, a.value.value);
      DryRunShift(x, answers, a.value.next, c);
      assert AskImages(answers, from, days, likes, reposts) == AskDryRun(answers, a.value.next, c);
      assert AskImages([x] + answers, from + 1, days, likes, reposts) == AskDryRun([x] + answers, a.value.next + 1, c);
    }
  }

  lemma RepostsShift(x: string, answers: seq<string>, from: nat, days: nat, likes: nat)
    requires from <= |answers|
    ensures AskReposts([x] + answers, from + 1, days, likes) == AskReposts(answers, from, days, likes)
  {
    AskShift(x, answers, from, ThresholdReply);
    var a := Ask(answers, from, ThresholdReply);
    if a.Some? {
      ImagesShift(x, answers, a.value.next, days, likes, a.value.value);
    }
  }

  lemma LikesShift(x: string, answers: seq<string>, from: nat, days: nat)
    requires from <= |answers|
    ensures AskLikes([x] + answers, from + 1, days) == AskLikes(answers, from, days)
  {
    AskShift(x, answers, from, ThresholdReply);
    var a := Ask(answers, from, ThresholdReply);
    if a.Some? {
      RepostsShift(x, answers, a.value.next, days, a.value.value);
    }
  }

  /** One extra line in front of the parameter answers, read past, leaves
      the parameters as they were. */
  lemma ParametersShift(x: string, answers: seq<string>, from: nat)
    requires from <= |answers|
    ensures GetParametersFrom([x] + answers, from + 1) == GetParametersFrom(answers, from)
  {
    AskShift(x, answers, from, ThresholdReply);
    var a := Ask(answers, from, ThresholdReply);
    if a.Some? {
      LikesShift(x, answers, a.value.next, a.value.value);
    }
  }

  /** The dry-run prompt answers with the first line it accepts. */
  lemma DryRunFromFirstAccepted(answers: seq<string>, from: nat, k: nat, criteria: Criteria)
    requires FirstAccepted(answers, from, k, YesNoReply)
    ensures AskDryRun(answers, from, criteria) == Some(Parameters(criteria, YesNoReply(answers[k]).value))
  {
    AskFindsFirst(answers, from, YesNoReply, k);
  }

  /** The keep-images prompt and the dry-run prompt each answer with the
      first line they accept, the second starting after the first's. */
  lemma ImagesFromFirstAccepted(answers: seq<string>, from: nat, k3: nat, k4: nat,
                                days: nat, likes: nat, reposts: nat)
    requires FirstAccepted(answers, from, k3, YesNoReply)
    requires FirstAccepted(answers, k3 + 1, k4, YesNoReply)
    ensures AskImages(answers, from, days, likes, reposts) ==
      Some(Parameters(Criteria(days, likes, reposts, YesNoReply(answers[k3]).value), YesNoReply(answers[k4]).value))
  {
    AskFindsFirst(answers, from, YesNoReply, k3);
    var c := Criteria(days, likes, reposts, YesNoReply(answers[k3]).value);
    ImagesThenDryRun(answers, from, days, likes, reposts, Asked(YesNoReply(answers[k3]).value, k3 + 1));
    DryRunFromFirstAccepted(answers, k3 + 1, k4, c);
  }

  /** Once the keep-images prompt has settled, the session continues with
      the dry-run prompt after that line. */
  lemma ImagesThenDryRun(answers: seq<string>, from: nat, days: nat, likes: nat, reposts: nat, a: Asked<bool>)
    requires from <= |answers|
    requires Ask(answers, from, YesNoReply) == Some(a)
    ensures AskImages(answers, from, days, likes, reposts) ==
      AskDryRun(answers, a.next, Criteria(days, likes, reposts, a.value))
  {
  }

  lemma RepostsFromFirstAccepted(answers: seq<string>, from: nat, k2: nat, k3: nat, k4: nat,
                                 days: nat, likes: nat)
    requires FirstAccepted(answers, from, k2, ThresholdReply)
    requires FirstAccepted(answers, k2 + 1, k3, YesNoReply)
    requires FirstAccepted(answers, k3 + 1, k4, YesNoReply)
    ensures AskReposts(answers, from, days, likes) ==
      Some(Parameters(Criteria(days, likes, ThresholdReply(answers[k2]).value, YesNoReply(answers[k3]).value),
                      YesNoReply(answers[k4]).value))
  {
    AskFindsFirst(answers, from, ThresholdReply, k2);
    ImagesFromFirstAccepted(answers, k2 + 1, k3, k4, days, likes, ThresholdReply(answers[k2]).value);
  }

  lemma LikesFromFirstAccepted(answers: seq<string>, from: nat, k1: nat, k2: nat, k3: nat, k4: nat, days: nat)
    requires FirstAccepted(answers, from, k1, ThresholdReply)
    requires FirstAccepted(answers, k1 + 1, k2, ThresholdReply)
    requires FirstAccepted(answers, k2 + 1, k3, YesNoReply)
    requires FirstAccepted(answers, k3 + 1, k4, YesNoReply)
    ensures AskLikes(answers, from, days) ==
      Some(Parameters(Criteria(days, ThresholdReply(answers[k1]).value, ThresholdReply(answers[k2]).value,
                               YesNoReply(answers[k3]).value),
                      YesNoReply(answers[k4]).value))
  {
    AskFindsFirst(answers, from, ThresholdReply, k1);
    RepostsFromFirstAccepted(answers, k1 + 1, k2, k3, k4, days, ThresholdReply(answers[k1]).value);
  }

  /** The whole parameter session: whatever lines are rejected along the
      way, each parameter is the value of the first line its prompt accepts
      after the line the previous prompt settled on. */
  lemma ParametersFromFirstAccepted(answers: seq<string>, i0: nat, i1: nat, i2: nat, i3: nat, i4: nat)
    requires FirstAccepted(answers, 0, i0, ThresholdReply)
    requires FirstAccepted(answers, i0 + 1, i1, ThresholdReply)
    requires FirstAccepted(answers, i1 + 1, i2, ThresholdReply)
    requires FirstAccepted(answers, i2 + 1, i3, YesNoReply)
    requires FirstAccepted(answers, i3 + 1, i4, YesNoReply)
    ensures GetParameters(answers) ==
      Some(Parameters(
        Criteria(ThresholdReply(answers[i0]).value, ThresholdReply(answers[i1]).value,
                 ThresholdReply(answers[i2]).value, YesNoReply(answers[i3]).value),
        YesNoReply(answers[i4]).value))
  {
    AskFindsFirst(answers, 0, ThresholdReply, i0);
    LikesFromFirstAccepted(answers, i0 + 1, i1, i2, i3, i4, ThresholdReply(answers[i0]).value);
  }

  /** The session has parameters exactly when each of the five prompts in
      turn accepts a line; when the answers run out first, there are none,
      and no default is made up for the prompts still to come. */
  lemma ParametersNeedEveryPrompt(answers: seq<string>)
    ensures GetParameters(answers).Some? <==>
      var d := Ask(answers, 0, ThresholdReply);
      d.Some? && (
        var l := Ask(answers, d.value.next, ThresholdReply);
        l.Some? && (
          var r := Ask(answers, l.value.next, ThresholdReply);
          r.Some? && (
            var i := Ask(answers, r.value.next, YesNoReply);
            i.Some? && Ask(answers, i.value.next, YesNoReply).Some?)))
  {
  }

  /** A line the days prompt rejects is read past without effect. */
  lemma ParametersSkipRejected(answers: seq<string>, from: nat)
    requires from < |answers|
    requires ThresholdReply(answers[from]).Reask?
    ensures GetParametersFrom(answers, from) == GetParametersFrom(answers, from + 1)
  {
    AskSkipsRejected(answers, from, ThresholdReply);
  }

  /** A rejected first answer changes nothing: the days prompt simply asks
      again and the rest of the session goes as without it. */
  lemma RejectedFirstAnswer(bad: string, answers: seq<string>)
    requires ThresholdReply(bad).Reask?
    ensures GetParameters([bad] + answers) == GetParameters(answers)
  {
    var xs := [bad] + answers;
    assert xs[0] == bad;
    ParametersSkipRejected(xs, 0);
    ParametersShift(bad, answers, 0);
  }
}
