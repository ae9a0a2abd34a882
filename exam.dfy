/**
 * The exam page (assets/js/exam.js): navigation through the questions,
 * answers keyed by question index, the one-second countdown with its MM:SS
 * display, and the submission of the score.
 *
 * Date.now() is the argument `now`; the interval timer is the method
 * `Tick`, which the page runs once a second while the timer is running.
 */
module Exam {
  import opened Wrappers
  import opened PhpRuntime

  /** A question; only its correct option matters to the logic. */
  datatype Question = Question(text: string, correctOption: string)

  /** The hidden fields of the form posted to result.php. */
  datatype Submission = Submission(submitResult: string, score: nat, totalQuestions: nat, timeTaken: int, status: string)

  const SubmitResultFlag := "1"
  const Completed := "completed"
  const WarningThreshold := 60

  // ---------------------------------------------------------------- scoring

  /** Question `i` has an answer and it is strictly equal to the correct option. */
  function IsCorrect(questions: seq<Question>, answers: map<nat, string>, i: nat): (r: bool)
    requires i < |questions|
    ensures i !in answers ==> !r
  {
    i in answers && answers[i] == questions[i].correctOption
  }

  /** The score: how many questions are answered correctly. */
  function Score(questions: seq<Question>, answers: map<nat, string>): (s: nat)
    ensures s <= |questions|
    decreases |questions|
  {
    if |questions| == 0 then 0
    else Score(questions[..|questions| - 1], answers) + (if IsCorrect(questions, answers, |questions| - 1) then 1 else 0)
  }

  lemma ScoreStep(questions: seq<Question>, answers: map<nat, string>, n: nat)
    requires n < |questions|
    ensures Score(questions[..n + 1], answers) == Score(questions[..n], answers) + (if IsCorrect(questions, answers, n) then 1 else 0)
  {
    assert questions[..n + 1][..n] == questions[..n];
  }

  /** The forEach loop of submitExam that accumulates the score. */
  method CountScore(questions: seq<Question>, answers: map<nat, string>) returns (score: nat)
    ensures score == Score(questions, answers)
  {
    score := 0;
    var index := 0;
    while index < |questions|
      invariant index <= |questions|
      invariant score == Score(questions[..index], answers)
    {
      ScoreStep(questions, answers, index);
      if index in answers && answers[index] == questions[index].correctOption {
        score := score + 1;
      }
      index := index + 1;
    }
    assert questions[..|questions|] == questions;
  }

  /** Without any answer the score is zero. */
  lemma {:induction false} ScoreWithoutAnswers(questions: seq<Question>)
    ensures Score(questions, map[]) == 0
    decreases |questions|
  {
    if |questions| > 0 {
      ScoreWithoutAnswers(questions[..|questions| - 1]);
    }
  }

  /** With every question answered correctly the score is the number of questions. */
  lemma {:induction false} ScoreAllCorrect(questions: seq<Question>, answers: map<nat, string>)
    requires forall i :: 0 <= i < |questions| ==> i in answers && answers[i] == questions[i].correctOption
    ensures Score(questions, answers) == |questions|
    decreases |questions|
  {
    if |questions| > 0 {
      ScoreAllCorrect(questions[..|questions| - 1], answers);
    }
  }

  /** Changing one answer moves the score by at most one, and not at all when the index is past the last question. */
  lemma {:induction false} ScoreOneAnswer(questions: seq<Question>, answers: map<nat, string>, i: nat, a: string)
    ensures Score(questions, answers) - 1 <= Score(questions, answers[i := a]) <= Score(questions, answers) + 1
    ensures i >= |questions| ==> Score(questions, answers[i := a]) == Score(questions, answers)
    decreases |questions|
  {
    if |questions| > 0 {
      var n := |questions| - 1;
      ScoreOneAnswer(questions[..n], answers, i, a);
      if i >= n {
        ScoreSameBelow(questions[..n], answers, answers[i := a]);
      }
    }
  }

  /** The score depends only on the answers to the questions there are. */
  lemma {:induction false} ScoreSameBelow(questions: seq<Question>, answers: map<nat, string>, other: map<nat, string>)
    requires forall i :: 0 <= i < |questions| ==> (i in answers <==> i in other) && (i in answers ==> answers[i] == other[i])
    ensures Score(questions, answers) == Score(questions, other)
    decreases |questions|
  {
    if |questions| > 0 {
      ScoreSameBelow(questions[..|questions| - 1], answers, other);
    }
  }

  // ---------------------------------------------------------------- the MM:SS display

  /** Math.floor(t / 60): Dafny's division by a positive divisor already rounds down. */
  function Minutes(t: int): (m: int)
    ensures m * 60 <= t < m * 60 + 60
  {
    t / 60
  }

  /** JavaScript's t % 60, whose sign follows the dividend. */
  function Seconds(t: int): (s: int)
    ensures -60 < s < 60
    ensures t >= 0 ==> 0 <= s && Minutes(t) * 60 + s == t
    ensures t < 0 ==> s <= 0 && (t - s) % 60 == 0
  {
    if t >= 0 then t % 60 else -((-t) % 60)
  }

  /** String.prototype.padStart(2, '0'). */
  function PadStart2(s: string): (r: string)
    ensures |r| == if |s| < 2 then 2 else |s|
    ensures r[|r| - |s|..] == s
    ensures forall i :: 0 <= i < |r| - |s| ==> r[i] == '0'
  {
    if |s| < 2 then seq(2 - |s|, _ => '0') + s else s
  }

  /** Under a hundred minutes, both fields of the timer are two characters wide. */
  lemma TwoDigitFields(t: int)
    ensures 0 <= t < 6000 ==> |PadStart2(DecimalString(Minutes(t)))| == 2 && |PadStart2(DecimalString(Seconds(t)))| == 2
  {
    if 0 <= t < 6000 {
      PaddedReadsBack(Minutes(t));
      PaddedReadsBack(Seconds(t));
    }
  }

  /** The text of the timer element: mm:ss, at least five characters, exactly five under a hundred minutes. */
  function TimerText(t: int): (r: string)
    ensures |r| >= 5
    ensures 0 <= t < 6000 ==> |r| == 5 && r[2] == ':'
  {
    var minutes := PadStart2(DecimalString(Minutes(t)));
    var seconds := PadStart2(DecimalString(Seconds(t)));
    TwoDigitFields(t);
    ColonJoined(minutes, seconds);
    minutes + ":" + seconds
  }

  lemma ColonJoined(minutes: string, seconds: string)
    requires |minutes| >= 2 && |seconds| >= 2
    ensures |minutes + ":" + seconds| >= 5
    ensures |minutes| == 2 ==> (minutes + ":" + seconds)[2] == ':'
  {
  }

  /** The warning class is added once the remaining time is a minute or less: while the display reads 01:00 or below. */
  function TimerWarning(t: int): (r: bool)
    ensures 0 <= t ==> (r <==> Minutes(t) == 0 || (Minutes(t) == 1 && Seconds(t) == 0))
  {
    t <= WarningThreshold
  }

  /** A two-digit field reads back, through the (int) cast, as the number it shows. */
  lemma PaddedReadsBack(n: nat)
    requires n < 100
    ensures |PadStart2(DecimalString(n))| == 2
    ensures StrToInt(PadStart2(DecimalString(n))) == n
  {
    var p := PadStart2(DecimalString(n));
    if n < 10 {
      assert p == ['0', DigitChar(n)];
      AllDigitsLead(p);
      assert SkipNumericSpace(p) == p;
      assert p[..1] == ['0'];
      assert DigitsValue(p[..1]) == 0 by {
        assert p[..1][..0] == [];
      }
    } else {
      assert NatDigits(n) == NatDigits(n / 10) + [DigitChar(n % 10)];
      DecimalRoundTrip(n);
    }
  }

  /** The two fields of "MM:SS" are found again on either side of the colon. */
  lemma SplitAtColon(mm: string, ss: string)
    requires |mm| == 2 && |ss| == 2
    ensures var text := mm + ":" + ss;
      |text| == 5 && text[2] == ':' && text[..2] == mm && text[3..] == ss
  {
    var text := mm + ":" + ss;
    assert text[..2] == mm;
    assert text[3..] == ss;
  }

  /**
   * Below 100 minutes the display is exactly MM:SS, and the two fields read
   * back as the minutes and seconds of `t`, which make up `t` again.
   */
  lemma TimerTextReadsBack(t: int)
    requires 0 <= t < 6000
    ensures var text := TimerText(t);
      && |text| == 5 && text[2] == ':'
      && StrToInt(text[..2]) == Minutes(t) && StrToInt(text[3..]) == Seconds(t)
      && StrToInt(text[..2]) * 60 + StrToInt(text[3..]) == t
      && 0 <= StrToInt(text[3..]) < 60
  {
    var m, sec := Minutes(t), Seconds(t);
    var mm, ss := PadStart2(DecimalString(m)), PadStart2(DecimalString(sec));
    PaddedReadsBack(m);
    PaddedReadsBack(sec);
    SplitAtColon(mm, ss);
  }

  // ---------------------------------------------------------------- the exam manager

  class ExamManager {
    const questions: seq<Question>
    const duration: int
    const examStartTime: int
    var currentQuestionIndex: nat
    var answers: map<nat, string>
    var timeRemaining: int
    var timerRunning: bool
    var timerWarning: bool
    var submission: Option<Submission>

    /** The index is 0 or points at a question, and a submitted exam has no running timer. */
    ghost predicate Valid()
      reads this
    {
      && (currentQuestionIndex == 0 || currentQuestionIndex < |questions|)
      && (submission.Some? ==> !timerRunning)
    }

    /** The constructor, with init(): index 0, no answers, the clock started and shown. */
    constructor (questions0: seq<Question>, duration0: int, now: int)
      ensures Valid()
      ensures questions == questions0 && duration == duration0 && examStartTime == now
      ensures currentQuestionIndex == 0 && answers == map[] && timeRemaining == duration0
      ensures timerRunning && submission.None?
      ensures timerWarning == TimerWarning(duration0)
    {
      questions, duration, examStartTime := questions0, duration0, now;
      currentQuestionIndex := 0;
      answers := map[];
      timeRemaining := duration0;
      submission := None;
      timerRunning := true;
      timerWarning := TimerWarning(duration0);
    }

    /** nextQuestion: moves on only while there is a later question. */
    method NextQuestion()
      requires Valid()
      modifies this`currentQuestionIndex
      ensures Valid()
      ensures currentQuestionIndex == if old(currentQuestionIndex) < |questions| - 1 then old(currentQuestionIndex) + 1
                                      else old(currentQuestionIndex)
    {
      if currentQuestionIndex < |questions| - 1 {
        currentQuestionIndex := currentQuestionIndex + 1;
      }
    }

    /** saveAnswer: the checked option, if any, becomes the answer to the current question. */
    method SaveAnswer(selected: Option<string>)
      modifies this`answers
      ensures answers == match selected
                         case Some(v) => old(answers)[currentQuestionIndex := v]
                         case None => old(answers)
      ensures forall k :: k != currentQuestionIndex ==>
        (k in answers <==> k in old(answers)) && (k in answers ==> answers[k] == old(answers)[k])
    {
      if selected.Some? {
        answers := answers[currentQuestionIndex := selected.value];
      }
    }

    /** The document's change listener: a change of an `answer` radio saves its value at once. */
    method OnAnswerChange(targetName: string, value: string)
      modifies this`answers
      ensures answers == if targetName == "answer" then old(answers)[currentQuestionIndex := value] else old(answers)
      ensures forall k :: k != currentQuestionIndex ==>
        (k in answers <==> k in old(answers)) && (k in answers ==> answers[k] == old(answers)[k])
    {
      if targetName == "answer" {
        answers := answers[currentQuestionIndex := value];
      }
    }

    /**
     * The text of the timer element. updateTimerDisplay writes it after
     * every change of timeRemaining, so it is always the MM:SS of that value.
     */
    function DisplayedTime(): string
      reads this
    {
      TimerText(timeRemaining)
    }

    /** updateTimerDisplay: the warning class, once added, is never removed. */
    method UpdateTimerDisplay()
      modifies this`timerWarning
      ensures timerWarning == (old(timerWarning) || TimerWarning(timeRemaining))
    {
      if timeRemaining <= WarningThreshold {
        timerWarning := true;
      }
    }

    /** submitExam: stops the timer, scores the answers and fills in the form. */
    method SubmitExam(now: int)
      requires Valid()
      modifies this`timerRunning, this`submission
      ensures Valid() && !timerRunning
      ensures submission == Some(Submission(SubmitResultFlag, Score(questions, answers), |questions|,
                                            (now - examStartTime) / 1000, Completed))
      ensures submission.value.score <= submission.value.totalQuestions
    {
      timerRunning := false;
      var score := CountScore(questions, answers);
      var timeTaken := (now - examStartTime) / 1000;
      submission := Some(Submission(SubmitResultFlag, score, |questions|, timeTaken, Completed));
    }

    /** timeUp: clears the interval and submits. */
    method TimeUp(now: int)
      requires Valid()
      modifies this`timerRunning, this`submission
      ensures Valid() && !timerRunning
      ensures submission == Some(Submission(SubmitResultFlag, Score(questions, answers), |questions|,
                                            (now - examStartTime) / 1000, Completed))
    {
      timerRunning := false;
      SubmitExam(now);
    }

    /**
     * One firing of the one-second interval: exactly one second less, the
     * display refreshed, and at zero or below the exam is submitted. A
     * cleared interval fires no more.
     */
    method Tick(now: int)
      requires Valid()
      modifies this`timeRemaining, this`timerWarning, this`timerRunning, this`submission
      ensures Valid()
      ensures !old(timerRunning) ==> unchanged(this)
      ensures old(timerRunning) ==>
        && timeRemaining == old(timeRemaining) - 1
        && timerWarning == (old(timerWarning) || TimerWarning(timeRemaining))
        && (timeRemaining <= 0 ==> !timerRunning && submission == Some(Submission(SubmitResultFlag,
              Score(questions, answers), |questions|, (now - examStartTime) / 1000, Completed)))
        && (timeRemaining > 0 ==> timerRunning && submission == old(submission))
    {
      if !timerRunning {
        return;
      }
      timeRemaining := timeRemaining - 1;
      UpdateTimerDisplay();
      if timeRemaining <= 0 {
        TimeUp(now);
      }
    }

    /** The Next button: save the checked option, then move on. */
    method NextClick(selected: Option<string>)
      requires Valid()
      modifies this`answers, this`currentQuestionIndex
      ensures Valid()
      ensures answers == match selected
                         case Some(v) => old(answers)[old(currentQuestionIndex) := v]
                         case None => old(answers)
      ensures currentQuestionIndex == if old(currentQuestionIndex) < |questions| - 1 then old(currentQuestionIndex) + 1
                                      else old(currentQuestionIndex)
    {
      SaveAnswer(selected);
      NextQuestion();
    }

    /** The Submit button: only after the confirmation is accepted, save the checked option and submit. */
    method SubmitClick(confirmed: bool, selected: Option<string>, now: int)
      requires Valid()
      modifies this`answers, this`timerRunning, this`submission
      ensures Valid()
      ensures !confirmed ==> unchanged(this)
      ensures confirmed ==>
        && answers == (match selected
                       case Some(v) => old(answers)[currentQuestionIndex := v]
                       case None => old(answers))
        && !timerRunning
        && submission == Some(Submission(SubmitResultFlag, Score(questions, answers), |questions|,
                                         (now - examStartTime) / 1000, Completed))
    {
      if confirmed {
        SaveAnswer(selected);
        SubmitExam(now);
      }
    }
  }
}
