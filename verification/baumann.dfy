/** The Baumann skin-type questionnaire of dermai_bot.py: the sixteen-question
    bank, the classifier that turns (category, A|B) answers into a four-letter
    code, the per-letter explanation, and the answer loop of `handle_answer`. */
module Baumann {
  import opened Wrappers

  /** The four scoring axes, in the fixed order the code is written in. */
  datatype Category = OD | SR | PN | WT {

    /** The letter an `A` answer votes for. */
    function First(): char {
      match this
      case OD => 'O'
      case SR => 'S'
      case PN => 'P'
      case WT => 'W'
    }

    /** The letter a `B` answer votes for. */
    function Second(): char {
      match this
      case OD => 'D'
      case SR => 'R'
      case PN => 'N'
      case WT => 'T'
    }

    /** The axis's place in the code, 0 to 3. */
    function Index(): nat {
      match this
      case OD => 0
      case SR => 1
      case PN => 2
      case WT => 3
    }

    /** The dictionary key the Python code uses for the axis. */
    function Key(): string {
      match this
      case OD => "O/D"
      case SR => "S/R"
      case PN => "P/N"
      case WT => "W/T"
    }
  }

  const Categories: seq<Category> := [OD, SR, PN, WT]

  /** The two buttons of every question; their callback data is "A" or "B". */
  datatype Choice = A | B

  /** What `.replace("A", first).replace("B", second)` makes of one answer. */
  function LetterFor(c: Category, ch: Choice): char {
    if ch == A then c.First() else c.Second()
  }

  datatype Question = Question(category: Category, prompt: string, optionA: string, optionB: string)

  /** QUESTIONS: four questions per axis, grouped in the order O/D, S/R, P/N, W/T. */
  const Questions: seq<Question> := [
    Question(OD, "1️⃣ Как часто ваша кожа блестит в течение дня?",
      "Блестит уже к обеду, особенно в Т-зоне", "Почти не блестит, даже к вечеру"),
    Question(OD, "2️⃣ Как выглядят ваши поры?",
      "Расширенные, особенно на носу и лбу", "Мелкие или почти незаметные"),
    Question(OD, "3️⃣ Как кожа ощущается после умывания?",
      "Через час — как обычно, без стянутости", "Чувствуется сухость или стянутость"),
    Question(OD, "4️⃣ Как часто появляются прыщи или чёрные точки?",
      "Регулярно, особенно в Т-зоне", "Редко или почти никогда"),
    Question(SR, "5️⃣ Реагирует ли кожа покраснением, зудом или жжением на косметику?",
      "Да, часто", "Почти никогда"),
    Question(SR, "6️⃣ Краснеет ли кожа от ветра, холода или горячей воды?",
      "Да, легко краснеет", "Нет, остаётся спокойной"),
    Question(SR, "7️⃣ Можете ли использовать кислоты (AHA/BHA) или ретинол без раздражения?",
      "Нет, вызывают жжение или шелушение", "Да, без проблем"),
    Question(SR, "8️⃣ Есть ли у вас розацеа, купероз или хроническое раздражение?",
      "Да", "Нет"),
    Question(PN, "9️⃣ Остаются ли тёмные пятна после прыщей?",
      "Да, надолго", "Нет, кожа быстро выравнивается"),
    Question(PN, "🔟 Есть ли веснушки или пигментные пятна?",
      "Да", "Нет"),
    Question(PN, "1️⃣1️⃣ Темнеет ли кожа после воспалений или царапин?",
      "Да", "Нет"),
    Question(PN, "1️⃣2️⃣ Используете ли вы осветляющие средства?",
      "Да, регулярно", "Нет, не использую"),
    Question(WT, "1️⃣3️⃣ Есть ли у вас морщины в покое (не при мимике)?",
      "Да, особенно вокруг глаз или на лбу", "Нет или почти незаметны"),
    Question(WT, "1️⃣4️⃣ Кожа кажется тонкой/дряблой или плотной/упругой?",
      "Тонкая, дряблая", "Плотная, эластичная"),
    Question(WT, "1️⃣5️⃣ Быстро ли возвращается кожа в форму после щипка?",
      "Медленно", "Сразу"),
    Question(WT, "1️⃣6️⃣ Вы выглядите старше своего возраста?",
      "Да, старше", "Нет, моложе или ровно по возрасту")
  ]

  const QuestionCount: nat := 16

  /** The axis of the k-th question of the bank. */
  function AxisOf(k: nat): Category
    requires k < QuestionCount
  {
    if k < 4 then OD else if k < 8 then SR else if k < 12 then PN else WT
  }

  /** Question k is on axis c exactly when it is one of the four questions
      starting at 4 * c.Index(). */
  lemma AxisOfIndex(k: nat, c: Category)
    requires k < QuestionCount
    ensures AxisOf(k) == c <==> 4 * c.Index() <= k < 4 * c.Index() + 4
  {
  }

  /** The bank has sixteen questions, the k-th on axis AxisOf(k), so every axis is
      asked four times and a 2-2 tie can occur on each. */
  lemma QuestionBankLayout()
    ensures |Questions| == QuestionCount
    ensures forall k :: 0 <= k < |Questions| ==> Questions[k].category == AxisOf(k)
  {
  }

  // ----- classification -----

  /** One recorded answer: the axis of the question and the button pressed. */
  datatype Answer = Answer(category: Category, choice: Choice)

  /** `summary[c]` after the tally loop: the choices recorded for axis c, in the
      order they were recorded. */
  function Filter(answers: seq<Answer>, c: Category): (r: seq<Choice>)
    ensures |r| <= |answers|
  {
    if |answers| == 0 then []
    else
      var last := answers[|answers| - 1];
      Filter(answers[..|answers| - 1], c) + (if last.category == c then [last.choice] else [])
  }

  /** `xs.count(ch)`. */
  function Count(xs: seq<Choice>, ch: Choice): (r: nat)
    ensures r <= |xs|
  {
    if |xs| == 0 then 0 else (if xs[0] == ch then 1 else 0) + Count(xs[1..], ch)
  }

  /** The letter chosen for axis c from its answers xs: strict majority, else the
      last answer; None where Python's `xs[-1]` raises IndexError (no answer). */
  function Letter(c: Category, xs: seq<Choice>): (r: Option<char>)
    ensures r.Some? <==> |xs| > 0
    ensures r.Some? ==> r.value == c.First() || r.value == c.Second()
  {
    if Count(xs, A) > Count(xs, B) then Some(c.First())
    else if Count(xs, B) > Count(xs, A) then Some(c.Second())
    else if |xs| == 0 then None
    else Some(LetterFor(c, xs[|xs| - 1]))
  }

  /** What `classify_baumann` returns: the code and its explanation. */
  datatype Verdict = Verdict(code: string, desc: string)

  /** `classify_baumann(answers)`; None when it raises because some axis has no
      answer. */
  function Classify(answers: seq<Answer>): (r: Option<Verdict>)
    ensures r.Some? <==> forall c: Category :: |Filter(answers, c)| > 0
    ensures r.Some? ==> |r.value.code| == 4
    ensures r.Some? ==> forall i :: 0 <= i < 4 ==>
              r.value.code[i] == Categories[i].First() || r.value.code[i] == Categories[i].Second()
    ensures r.Some? ==> r.value.desc == Explain(r.value.code)
  {
    var od := Letter(OD, Filter(answers, OD));
    var sr := Letter(SR, Filter(answers, SR));
    var pn := Letter(PN, Filter(answers, PN));
    var wt := Letter(WT, Filter(answers, WT));
    if od.None? then assert |Filter(answers, OD)| == 0; None
    else if sr.None? then assert |Filter(answers, SR)| == 0; None
    else if pn.None? then assert |Filter(answers, PN)| == 0; None
    else if wt.None? then assert |Filter(answers, WT)| == 0; None
    else
      var code := [od.value, sr.value, pn.value, wt.value];
      Some(Verdict(code, Explain(code)))
  }

  // ----- facts about the tally -----

  lemma {:induction false} CountSplit(xs: seq<Choice>)
    ensures Count(xs, A) + Count(xs, B) == |xs|
  {
    if |xs| > 0 {
      CountSplit(xs[1..]);
    }
  }

  lemma {:induction false} CountIsMultiplicity(xs: seq<Choice>, ch: Choice)
    ensures Count(xs, ch) == multiset(xs)[ch]
  {
    if |xs| > 0 {
      CountIsMultiplicity(xs[1..], ch);
      assert xs == [xs[0]] + xs[1..];
    }
  }

  lemma {:induction false} FilterConcat(p: seq<Answer>, q: seq<Answer>, c: Category)
    ensures Filter(p + q, c) == Filter(p, c) + Filter(q, c)
  {
    if |q| > 0 {
      FilterConcat(p, q[..|q| - 1], c);
      assert (p + q)[..|p + q| - 1] == p + q[..|q| - 1];
    } else {
      assert p + q == p;
    }
  }

  /** The number of answers (c, ch) in the tally of c is their number in the raw
      answer list. */
  lemma {:induction false} CountFilterIsMultiplicity(answers: seq<Answer>, c: Category, ch: Choice)
    ensures Count(Filter(answers, c), ch) == multiset(answers)[Answer(c, ch)]
  {
    if |answers| > 0 {
      var init := answers[..|answers| - 1];
      var last := answers[|answers| - 1];
      CountFilterIsMultiplicity(init, c, ch);
      assert answers == init + [last];
      var tail := if last.category == c then [last.choice] else [];
      CountIsMultiplicity(Filter(init, c), ch);
      CountIsMultiplicity(tail, ch);
      CountIsMultiplicity(Filter(init, c) + tail, ch);
    }
  }

  /** The tally of c is empty exactly when no answer is on axis c. */
  lemma {:induction false} FilterEmptyIff(answers: seq<Answer>, c: Category)
    ensures Filter(answers, c) == [] <==> forall k :: 0 <= k < |answers| ==> answers[k].category != c
  {
    if |answers| > 0 {
      var init := answers[..|answers| - 1];
      FilterEmptyIff(init, c);
      assert forall k :: 0 <= k < |init| ==> init[k] == answers[k];
    }
  }

  /** The last entry of the tally of c is the choice of the last answer on axis c. */
  lemma {:induction false} FilterLast(answers: seq<Answer>, c: Category, k: nat)
    requires k < |answers| && answers[k].category == c
    requires forall j :: k < j < |answers| ==> answers[j].category != c
    ensures var xs := Filter(answers, c); |xs| > 0 && xs[|xs| - 1] == answers[k].choice
  {
    var init := answers[..|answers| - 1];
    if k == |answers| - 1 {
    } else {
      FilterLast(init, c, k);
    }
  }

  /** The scoring rubric read off the raw answer list: with nA and nB the numbers
      of A and B answers on axis c, the letter is c's first letter if nA > nB, its
      second if nB > nA, and on a tie the letter of the last answer on c. */
  function RubricLetter(answers: seq<Answer>, c: Category, k: nat): char
    requires k < |answers| && answers[k].category == c
  {
    var nA := multiset(answers)[Answer(c, A)];
    var nB := multiset(answers)[Answer(c, B)];
    if nA > nB then c.First() else if nB > nA then c.Second() else LetterFor(c, answers[k].choice)
  }

  /** Position i of the code is the letter of axis i computed from its tally. */
  lemma ClassifyLetter(answers: seq<Answer>, i: nat)
    requires i < 4 && Classify(answers).Some?
    ensures Letter(Categories[i], Filter(answers, Categories[i])).Some?
    ensures Classify(answers).value.code[i] == Letter(Categories[i], Filter(answers, Categories[i])).value
  {
  }

  /** Every letter of the code follows the rubric, with k the last answer on the
      letter's axis. */
  lemma ClassifyFollowsRubric(answers: seq<Answer>, i: nat, k: nat)
    requires i < 4
    requires k < |answers| && answers[k].category == Categories[i]
    requires forall j :: k < j < |answers| ==> answers[j].category != Categories[i]
    requires Classify(answers).Some?
    ensures Classify(answers).value.code[i] == RubricLetter(answers, Categories[i], k)
  {
    var c := Categories[i];
    ClassifyLetter(answers, i);
    CountFilterIsMultiplicity(answers, c, A);
    CountFilterIsMultiplicity(answers, c, B);
    FilterLast(answers, c, k);
  }

  /** Both directions of the rubric for one axis: the first letter is chosen
      exactly when A has a strict majority, or a tie is broken by a last A. */
  lemma LetterMajority(c: Category, xs: seq<Choice>)
    requires |xs| > 0
    ensures Letter(c, xs) == Some(c.First()) <==>
              2 * Count(xs, A) > |xs| || (2 * Count(xs, A) == |xs| && xs[|xs| - 1] == A)
    ensures Letter(c, xs) == Some(c.Second()) <==>
              2 * Count(xs, B) > |xs| || (2 * Count(xs, B) == |xs| && xs[|xs| - 1] == B)
  {
    CountSplit(xs);
  }

  /** Reordering the answers of one axis does not change its letter, provided a
      tie still ends with the same answer. */
  lemma LetterPermutation(c: Category, xs: seq<Choice>, ys: seq<Choice>)
    requires multiset(xs) == multiset(ys) && |xs| == |ys|
    requires |xs| > 0 && Count(xs, A) == Count(xs, B) ==> xs[|xs| - 1] == ys[|ys| - 1]
    ensures Letter(c, xs) == Letter(c, ys)
  {
    CountIsMultiplicity(xs, A);
    CountIsMultiplicity(xs, B);
    CountIsMultiplicity(ys, A);
    CountIsMultiplicity(ys, B);
  }

  /** Swapping two neighbouring answers on different axes leaves every tally as
      it was. */
  lemma FilterSwap(p: seq<Answer>, x: Answer, y: Answer, q: seq<Answer>, c: Category)
    requires x.category != y.category
    ensures Filter(p + [x, y] + q, c) == Filter(p + [y, x] + q, c)
  {
    FilterConcat(p + [x, y], q, c);
    FilterConcat(p + [y, x], q, c);
    FilterConcat(p, [x, y], c);
    FilterConcat(p, [y, x], c);
    assert [x, y][..1] == [x];
    assert [y, x][..1] == [y];
    assert [x][..0] == [] && [y][..0] == [];
  }

  /** The code depends only on each axis's own answers: swapping two neighbouring
      answers on different axes changes nothing. */
  lemma ClassifySwap(p: seq<Answer>, x: Answer, y: Answer, q: seq<Answer>)
    requires x.category != y.category
    ensures Classify(p + [x, y] + q) == Classify(p + [y, x] + q)
  {
    FilterSwap(p, x, y, q, OD);
    FilterSwap(p, x, y, q, SR);
    FilterSwap(p, x, y, q, PN);
    FilterSwap(p, x, y, q, WT);
  }

  // ----- explain_skin_type -----

  /** The description of one code letter; every other character maps to "". */
  function Describe(ch: char): (r: string)
    ensures r == "" <==> ch !in "ODSRPNWT"
  {
    match ch
    case 'O' => "Жирная"
    case 'D' => "Сухая"
    case 'S' => "Чувствительная"
    case 'R' => "Устойчивая"
    case 'P' => "Пигментированная"
    case 'N' => "Без склонности к пигментации"
    case 'W' => "Склонна к морщинам"
    case 'T' => "Плотная/упругая"
    case _ => ""
  }

  /** The code letter a description stands for. */
  function LetterOfDescription(d: string): Option<char> {
    if d == "Жирная" then Some('O')
    else if d == "Сухая" then Some('D')
    else if d == "Чувствительная" then Some('S')
    else if d == "Устойчивая" then Some('R')
    else if d == "Пигментированная" then Some('P')
    else if d == "Без склонности к пигментации" then Some('N')
    else if d == "Склонна к морщинам" then Some('W')
    else if d == "Плотная/упругая" then Some('T')
    else None
  }

  /** No two letters share a description: each one can be read back. */
  lemma DescribeInverse(ch: char)
    requires ch in "ODSRPNWT"
    ensures LetterOfDescription(Describe(ch)) == Some(ch)
  {
  }

  /** The list `parts` of explain_skin_type: one entry per character of the code. */
  function Parts(code: string): (r: seq<string>)
    ensures |r| == |code|
    ensures forall i :: 0 <= i < |code| ==> r[i] == Describe(code[i])
  {
    if |code| == 0 then [] else [Describe(code[0])] + Parts(code[1..])
  }

  /** `sep.join(parts)`. */
  function Join(parts: seq<string>, sep: string): string {
    if |parts| == 0 then ""
    else if |parts| == 1 then parts[0]
    else parts[0] + sep + Join(parts[1..], sep)
  }

  /** `explain_skin_type(code)`: the fixed heading, the parts, a closing full stop. */
  function Explain(code: string): (r: string)
    ensures |r| > |ExplainHeading| && r[..|ExplainHeading|] == ExplainHeading && r[|r| - 1] == '.'
  {
    ExplainHeading + Join(Parts(code), ", ") + "."
  }

  const ExplainHeading := "Тип кожи: "

  /** The explanation of a four-letter code names the four letters' descriptions
      in code order, separated by commas. */
  lemma ExplainFullCode(code: string)
    requires |code| == 4
    ensures Explain(code) == ExplainHeading + Describe(code[0]) + ", " + Describe(code[1]) + ", "
                                             + Describe(code[2]) + ", " + Describe(code[3]) + "."
  {
    var p := Parts(code);
    assert p == [Describe(code[0]), Describe(code[1]), Describe(code[2]), Describe(code[3])];
    FramedJoinFour(ExplainHeading, p, ", ", ".");
  }

  lemma FramedJoinFour(head: string, p: seq<string>, sep: string, tail: string)
    requires |p| == 4
    ensures head + Join(p, sep) + tail == head + p[0] + sep + p[1] + sep + p[2] + sep + p[3] + tail
  {
    JoinFour(p, sep);
  }

  lemma JoinFour(p: seq<string>, sep: string)
    requires |p| == 4
    ensures Join(p, sep) == p[0] + sep + p[1] + sep + p[2] + sep + p[3]
  {
    assert p[1..][1..] == p[2..] && p[2..][1..] == p[3..];
    assert Join(p[2..], sep) == p[2] + sep + p[3];
  }

  // ----- the answer loop of test_start / handle_answer -----

  /** `user_data` of one quiz: the accumulated answers and the question index. */
  datatype QuizState = QuizState(answers: seq<Answer>, index: nat)

  /** What one `handle_answer` call leads to: the next question, the end of the
      test with its verdict, or an exception (state as it was left). */
  datatype QuizStep = Asked(state: QuizState) | Finished(state: QuizState, verdict: Verdict) | Failed(state: QuizState)

  /** `test_start`: an empty answer list at index 0. */
  function TestStart(): (r: QuizState)
    ensures r.answers == [] && r.index == |r.answers|
  {
    QuizState([], 0)
  }

  /** `handle_answer` for the button `ch`: append (axis of the current question,
      ch), advance the index, and classify once the index reaches the bank size.
      The axis of question k is `AxisOf(k)` (see `QuestionBankLayout`). */
  function HandleAnswer(st: QuizState, ch: Choice): (r: QuizStep)
    ensures st.index < QuestionCount ==>
              r.state == QuizState(st.answers + [Answer(AxisOf(st.index), ch)], st.index + 1)
    ensures st.index < QuestionCount ==> (r.Asked? <==> st.index + 1 < QuestionCount)
    ensures st.index >= QuestionCount ==> r == Failed(st)
    // the last question: the verdict is the classification of all answers
    ensures st.index + 1 == QuestionCount ==>
              && (r.Finished? <==> Classify(r.state.answers).Some?)
              && (r.Finished? ==> r.verdict == Classify(r.state.answers).value)
              && (r.Failed? <==> Classify(r.state.answers).None?)
  {
    if st.index >= QuestionCount then Failed(st)
    else
      var next := QuizState(st.answers + [Answer(AxisOf(st.index), ch)], st.index + 1);
      if next.index >= QuestionCount then
        match Classify(next.answers)
        case Some(v) => Finished(next, v)
        case None => Failed(next)
      else Asked(next)
  }

  /** The answers recorded after the buttons `choices` were pressed in order. */
  function AnswersFor(choices: seq<Choice>): (r: seq<Answer>)
    requires |choices| <= QuestionCount
    ensures |r| == |choices|
    ensures forall k :: 0 <= k < |r| ==> r[k] == Answer(AxisOf(k), choices[k])
  {
    if |choices| == 0 then []
    else AnswersFor(choices[..|choices| - 1]) + [Answer(AxisOf(|choices| - 1), choices[|choices| - 1])]
  }

  /** A test started with `test_start` and fed `choices` one button at a time;
      once it has finished, further buttons are no longer routed to it. */
  function Replay(choices: seq<Choice>): (r: QuizStep)
    ensures r.Asked? <==> |choices| < QuestionCount
    ensures r.Asked? ==> r.state.index == |r.state.answers| == |choices|
  {
    if |choices| == 0 then Asked(TestStart())
    else
      match Replay(choices[..|choices| - 1])
      case Asked(st) => HandleAnswer(st, choices[|choices| - 1])
      case other => other
  }

  /** After n < 16 buttons the state holds exactly n answers, the k-th on the
      axis of question k, and index == n; the 16th button ends the test with the
      classification of all sixteen answers, which always succeeds. */
  lemma {:induction false} ReplayInvariant(choices: seq<Choice>)
    requires |choices| <= QuestionCount
    ensures |choices| < QuestionCount ==> Replay(choices) == Asked(QuizState(AnswersFor(choices), |choices|))
    ensures |choices| == QuestionCount ==>
              Classify(AnswersFor(choices)).Some? &&
              Replay(choices) == Finished(QuizState(AnswersFor(choices), QuestionCount), Classify(AnswersFor(choices)).value)
  {
    if |choices| > 0 {
      var init := choices[..|choices| - 1];
      ReplayInvariant(init);
      assert AnswersFor(choices) == AnswersFor(init) + [Answer(AxisOf(|init|), choices[|init|])];
      if |choices| == QuestionCount {
        FullTestCoversEveryAxis(choices);
      }
    }
  }

  /** A complete run has an answer on every axis, so `xs[-1]` never raises. */
  lemma FullTestCoversEveryAxis(choices: seq<Choice>)
    requires |choices| == QuestionCount
    ensures Classify(AnswersFor(choices)).Some?
  {
    var answers := AnswersFor(choices);
    forall c: Category
      ensures |Filter(answers, c)| > 0
    {
      var i := if c == OD then 0 else if c == SR then 1 else if c == PN then 2 else 3;
      assert answers[4 * i].category == c;
      FilterEmptyIff(answers, c);
    }
  }

  /** The answers recorded for choices xs all made on questions of axis c. */
  function Block(c: Category, xs: seq<Choice>): (r: seq<Answer>)
    ensures |r| == |xs|
    ensures forall k :: 0 <= k < |xs| ==> r[k] == Answer(c, xs[k])
  {
    if |xs| == 0 then [] else Block(c, xs[..|xs| - 1]) + [Answer(c, xs[|xs| - 1])]
  }

  /** A block's tally is its choices on its own axis and empty on the others. */
  lemma {:induction false} FilterBlock(c: Category, xs: seq<Choice>, d: Category)
    ensures Filter(Block(c, xs), d) == if c == d then xs else []
  {
    if |xs| > 0 {
      var n := |xs| - 1;
      var front := Block(c, xs[..n]);
      assert Block(c, xs) == front + [Answer(c, xs[n])];
      FilterBlock(c, xs[..n], d);
      FilterSnoc(front, Answer(c, xs[n]), d);
      if c == d {
        assert xs == xs[..n] + [xs[n]];
      }
    }
  }

  /** Recording one more answer extends its own axis's tally only. */
  lemma FilterSnoc(p: seq<Answer>, a: Answer, c: Category)
    ensures Filter(p + [a], c) == Filter(p, c) + (if a.category == c then [a.choice] else [])
  {
    assert (p + [a])[..|p|] == p;
  }

  /** A complete run is four blocks of four, one per axis, in the fixed order. */
  lemma AnswersForBlocks(cs: seq<Choice>)
    requires |cs| == QuestionCount
    ensures AnswersFor(cs) == Block(OD, cs[0..4]) + Block(SR, cs[4..8]) + Block(PN, cs[8..12]) + Block(WT, cs[12..16])
  {
    var r := AnswersFor(cs);
    var blocks := Block(OD, cs[0..4]) + Block(SR, cs[4..8]) + Block(PN, cs[8..12]) + Block(WT, cs[12..16]);
    forall k | 0 <= k < 16
      ensures r[k] == blocks[k]
    {
      if k < 4 {
      } else if k < 8 {
      } else if k < 12 {
      } else {
      }
    }
  }

  lemma FilterConcat4(b0: seq<Answer>, b1: seq<Answer>, b2: seq<Answer>, b3: seq<Answer>, c: Category)
    ensures Filter(b0 + b1 + b2 + b3, c) == Filter(b0, c) + Filter(b1, c) + Filter(b2, c) + Filter(b3, c)
  {
    FilterConcat(b0 + b1 + b2, b3, c);
    FilterConcat(b0 + b1, b2, c);
    FilterConcat(b0, b1, c);
  }

  /** The tally of four concatenated answer lists, given each one's tally. */
  lemma FilterOfFour(b0: seq<Answer>, b1: seq<Answer>, b2: seq<Answer>, b3: seq<Answer>, c: Category,
                     y0: seq<Choice>, y1: seq<Choice>, y2: seq<Choice>, y3: seq<Choice>)
    requires Filter(b0, c) == y0 && Filter(b1, c) == y1 && Filter(b2, c) == y2 && Filter(b3, c) == y3
    ensures Filter(b0 + b1 + b2 + b3, c) == y0 + y1 + y2 + y3
  {
    FilterConcat4(b0, b1, b2, b3, c);
  }

  /** The tally of axis c over four consecutive blocks, one per axis, is the
      choices of c's own block. */
  lemma FilterOfFourBlocks(x0: seq<Choice>, x1: seq<Choice>, x2: seq<Choice>, x3: seq<Choice>, c: Category)
    ensures Filter(Block(OD, x0) + Block(SR, x1) + Block(PN, x2) + Block(WT, x3), c) ==
              match c case OD => x0 case SR => x1 case PN => x2 case WT => x3
  {
    var b0, b1, b2, b3 := Block(OD, x0), Block(SR, x1), Block(PN, x2), Block(WT, x3);
    var none: seq<Choice> := [];
    assert Filter(b0, c) == if c == OD then x0 else none by { FilterBlock(OD, x0, c); }
    assert Filter(b1, c) == if c == SR then x1 else none by { FilterBlock(SR, x1, c); }
    assert Filter(b2, c) == if c == PN then x2 else none by { FilterBlock(PN, x2, c); }
    assert Filter(b3, c) == if c == WT then x3 else none by { FilterBlock(WT, x3, c); }
    match c
    case OD =>
      FilterOfFour(b0, b1, b2, b3, c, x0, none, none, none);
      assert x0 + none + none + none == x0;
    case SR =>
      FilterOfFour(b0, b1, b2, b3, c, none, x1, none, none);
      assert none + x1 + none + none == x1;
    case PN =>
      FilterOfFour(b0, b1, b2, b3, c, none, none, x2, none);
      assert none + none + x2 + none == x2;
    case WT =>
      FilterOfFour(b0, b1, b2, b3, c, none, none, none, x3);
      assert none + none + none + x3 == x3;
  }

  /** In a complete run the tally of axis i is the four choices made on its
      questions, in order. */
  lemma FilterOfFullRun(cs: seq<Choice>, i: nat)
    requires |cs| == QuestionCount && i < 4
    ensures Filter(AnswersFor(cs), Categories[i]) == cs[4 * i..4 * i + 4]
  {
    AnswersForBlocks(cs);
    var c := Categories[i];
    FilterOfFourBlocks(cs[0..4], cs[4..8], cs[8..12], cs[12..16], c);
    if i == 0 {
      assert c == OD;
    } else if i == 1 {
      assert c == SR;
    } else if i == 2 {
      assert c == PN;
    } else {
      assert c == WT;
    }
  }

  /** A 2-2 tie ending in B goes to the axis's second letter. */
  lemma TieGoesToLast(c: Category)
    ensures Letter(c, [A, A, B, B]) == Some(c.Second())
  {
    assert Count([A, A, B, B], A) == 2;
    assert Count([A, A, B, B], B) == 2;
  }

  /** Answering A, A, B, B on every axis ties all four 2-2; each tie goes to the
      last answer, B, giving "DRNT". */
  lemma TieOnEveryAxis(cs: seq<Choice>)
    requires |cs| == QuestionCount
    requires cs[0..4] == cs[4..8] == cs[8..12] == cs[12..16] == [A, A, B, B]
    ensures Replay(cs).Finished? && Replay(cs).verdict.code == "DRNT"
  {
    ReplayInvariant(cs);
    var code := Classify(AnswersFor(cs)).value.code;
    TieLetter(cs, 0);
    TieLetter(cs, 1);
    TieLetter(cs, 2);
    TieLetter(cs, 3);
    assert code == "DRNT";
  }

  /** A 2-2 tie A, A, B, B on axis i of a complete run goes to the axis's
      second letter. */
  lemma TieLetter(cs: seq<Choice>, i: nat)
    requires |cs| == QuestionCount && i < 4 && cs[4 * i..4 * i + 4] == [A, A, B, B]
    requires Classify(AnswersFor(cs)).Some?
    ensures Classify(AnswersFor(cs)).value.code[i] == Categories[i].Second()
  {
    var c := Categories[i];
    assert Letter(c, Filter(AnswersFor(cs), c)) == Some(c.Second()) by {
      FilterOfFullRun(cs, i);
      TieGoesToLast(c);
    }
    ClassifyLetter(AnswersFor(cs), i);
  }
}
