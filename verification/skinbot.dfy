/** The conversation of utils/bot.py as a pure transition function: a session
    (the ConversationHandler state and `context.user_data`) and one incoming
    Telegram update give the next session, the store calls the handler makes,
    and whether the handler returned normally, was not reached, or raised.
    Store calls are effects interpreted by the functions of `Dataset`. */
module SkinBot {
  import opened Wrappers
  import PyText
  import Baumann
  import Dataset

  type Category = Baumann.Category
  type Choice = Baumann.Choice

  /** No conversation (before /test, or after END), or one of CONSENT, DEMO, Q_STATE. */
  datatype Phase = Idle | Consent | Demo | Quiz

  /** `context.user_data`; None is a key that is absent. The dictionary belongs to
      the user and outlives a finished conversation. */
  datatype UserData = UserData(
    sex: Option<string>,
    age: Option<int>,
    allergies: Option<string>,
    idPatient: Option<string>,
    answers: Option<map<Category, Choice>>,
    index: Option<nat>)

  /** The user data of a user the bot has never seen. */
  const NoData := UserData(None, None, None, None, None, None)

  datatype Session = Session(phase: Phase, data: UserData)

  /** An update: a /command, an inline-button press with its callback data, or a
      plain text message. */
  datatype Event = Command(name: string) | Button(data: string) | Text(text: string)

  /** A call into the record store. */
  datatype Effect =
    | CreateRecord(id: string, age: int, sex: string, allergies: string)
    | StoreTestResults(id: string, answersJson: string, skinCode: string)

  /** Handled: the handler returned. Ignored: no handler matched the update.
      Raised: the handler raised before finishing (the conversation state is
      not advanced, but what it wrote to `user_data` stays). */
  datatype Status = Handled | Ignored | Raised

  datatype Outcome = Outcome(session: Session, effects: seq<Effect>, status: Status)

  /** The two sexes the sex step accepts. */
  predicate IsSex(s: string) {
    s == "М" || s == "Ж"
  }

  /** The callback data of the answer buttons. */
  function Token(ch: Choice): string {
    if ch == Baumann.A then "A" else "B"
  }

  // ----- handlers -----

  /** `handle_consent`: the button's data, lower-cased, is "да" or "yes" to go on
      to the demographics; anything else ends the conversation. Nothing is
      stored either way. */
  function HandleConsent(s: Session, data: string): (r: Outcome)
    ensures r.effects == [] && r.status == Handled && r.session.data == s.data
    ensures r.session.phase == Demo || r.session.phase == Idle
    ensures r.session.phase == Demo <==> PyText.Lower(data) == "да" || PyText.Lower(data) == "yes"
  {
    var choice := PyText.Lower(data);
    if choice == "да" || choice == "yes" then Outcome(s.(phase := Demo), [], Handled)
    else Outcome(s.(phase := Idle), [], Handled)
  }

  /** `handle_demo`: the step is chosen by which keys `user_data` already has.
      Without `sex` it needs a button press; without `age` it needs text that
      `int()` accepts; otherwise the text is the allergies, and the patient
      record is created and the quiz begins. Reading the missing callback
      query or message of the other kind of update raises. */
  function HandleDemo(s: Session, e: Event, freshId: string): (r: Outcome)
    requires !e.Command?
    ensures r.status != Ignored
    ensures r.status == Raised ==> r.session == s && r.effects == []
    // the sex step
    ensures s.data.sex.None? ==>
              && r.effects == [] && r.session.phase == s.phase
              && r.session.data.(sex := None) == s.data
              && (r.session.data.sex.Some? <==> e.Button? && IsSex(PyText.Upper(e.data)))
              && (r.session.data.sex.Some? ==> r.session.data.sex.value == PyText.Upper(e.data))
    // the age step
    ensures s.data.sex.Some? && s.data.age.None? ==>
              && r.effects == [] && r.session.phase == s.phase
              && r.session.data.(age := None) == s.data
              && (r.session.data.age.Some? <==> e.Text? && PyText.ParseInt(e.text).Some?)
              && (r.session.data.age.Some? ==> r.session.data.age == PyText.ParseInt(e.text))
    // the allergies step
    ensures s.data.sex.Some? && s.data.age.Some? ==>
              && (r.status == Handled <==> e.Text?)
              && (e.Text? ==>
                    && r.session.phase == Quiz
                    && r.session.data == s.data.(allergies := Some(e.text), idPatient := Some(freshId),
                                                 answers := Some(map[]), index := Some(0))
                    && r.effects == [CreateRecord(freshId, s.data.age.value, s.data.sex.value, e.text)])
  {
    if s.data.sex.None? then
      match e
      case Button(data) =>
        var sex := PyText.Upper(data);
        if IsSex(sex) then Outcome(s.(data := s.data.(sex := Some(sex))), [], Handled)
        else Outcome(s, [], Handled)
      case Text(_) => Outcome(s, [], Raised)
    else if s.data.age.None? then
      match e
      case Text(text) =>
        (match PyText.ParseInt(text)
         case Some(age) => Outcome(s.(data := s.data.(age := Some(age))), [], Handled)
         case None => Outcome(s, [], Handled))
      case Button(_) => Outcome(s, [], Raised)
    else
      match e
      case Text(text) =>
        var data := s.data.(allergies := Some(text), idPatient := Some(freshId),
                            answers := Some(map[]), index := Some(0));
        Outcome(Session(Quiz, data), [CreateRecord(freshId, s.data.age.value, s.data.sex.value, text)], Handled)
      case Button(_) => Outcome(s, [], Raised)
  }

  /** One axis's entry of `answers_json.items()`, if it has one. */
  function Entry(m: map<Category, Choice>, c: Category): seq<Baumann.Answer> {
    if c in m then [Baumann.Answer(c, m[c])] else []
  }

  /** `list(answers_json.items())`. The quiz inserts the keys in question order,
      which visits the axes in their fixed order, so that is the items' order. */
  function Items(m: map<Category, Choice>): seq<Baumann.Answer> {
    Entry(m, Baumann.OD) + Entry(m, Baumann.SR) + Entry(m, Baumann.PN) + Entry(m, Baumann.WT)
  }

  /** The items are exactly the dictionary's entries, each once, in axis order. */
  lemma ItemsFollowMap(m: map<Category, Choice>)
    ensures var r := Items(m);
            forall k :: 0 <= k < |r| ==> r[k].category in m && r[k].choice == m[r[k].category]
    ensures forall c :: c in m ==> Baumann.Answer(c, m[c]) in Items(m)
    ensures var r := Items(m);
            forall i, j :: 0 <= i < j < |r| ==> r[i].category.Index() < r[j].category.Index()
  {
    ItemsAreEntries(m);
    ItemsCoverMap(m);
    ItemsInAxisOrder(m);
  }

  lemma ItemsAreEntries(m: map<Category, Choice>)
    ensures var r := Items(m);
            forall k :: 0 <= k < |r| ==> r[k].category in m && r[k].choice == m[r[k].category]
  {
  }

  lemma ItemsCoverMap(m: map<Category, Choice>)
    ensures forall c :: c in m ==> Baumann.Answer(c, m[c]) in Items(m)
  {
    var r := Items(m);
    var o, sr, p := |Entry(m, Baumann.OD)|, |Entry(m, Baumann.SR)|, |Entry(m, Baumann.PN)|;
    forall c | c in m ensures Baumann.Answer(c, m[c]) in r {
      if c == Baumann.OD {
        assert r[0] == Baumann.Answer(c, m[c]);
      } else if c == Baumann.SR {
        assert r[o] == Baumann.Answer(c, m[c]);
      } else if c == Baumann.PN {
        assert r[o + sr] == Baumann.Answer(c, m[c]);
      } else {
        assert r[o + sr + p] == Baumann.Answer(c, m[c]);
      }
    }
  }

  lemma ItemsInAxisOrder(m: map<Category, Choice>)
    ensures var r := Items(m);
            forall i, j :: 0 <= i < j < |r| ==> r[i].category.Index() < r[j].category.Index()
  {
  }

  /** One item as `json.dumps` writes it: `"O/D": "A"`. */
  function EntryText(a: Baumann.Answer): string {
    "\"" + a.category.Key() + "\": \"" + Token(a.choice) + "\""
  }

  function EntryTexts(items: seq<Baumann.Answer>): seq<string> {
    if |items| == 0 then [] else [EntryText(items[0])] + EntryTexts(items[1..])
  }

  /** `json.dumps(answers_json, ensure_ascii=False)`: the items in insertion
      order, reading back (`DecodeAnswers`, the `json.loads` of these objects)
      as exactly those items. */
  function EncodeAnswers(m: map<Category, Choice>): (r: string)
    ensures DecodeAnswers(r) == Some(Items(m))
  {
    var body := Baumann.Join(EntryTexts(Items(m)), ", ");
    JoinedEntriesRead(Items(m));
    "{" + body + "}"
  }

  /** The axis a dictionary key names. */
  function KeyCategory(key: string): Option<Category> {
    if key == "O/D" then Some(Baumann.OD)
    else if key == "S/R" then Some(Baumann.SR)
    else if key == "P/N" then Some(Baumann.PN)
    else if key == "W/T" then Some(Baumann.WT)
    else None
  }

  /** The answer a callback token names. */
  function TokenChoice(token: string): Option<Choice> {
    if token == "A" then Some(Baumann.A) else if token == "B" then Some(Baumann.B) else None
  }

  /** Reads one `"key": "token"` item. */
  function ReadEntry(e: string): Option<Baumann.Answer> {
    if |e| == 10 && e[0] == '"' && e[4..8] == "\": \"" && e[9] == '"' then
      match (KeyCategory(e[1..4]), TokenChoice(e[8..9]))
      case (Some(c), Some(ch)) => Some(Baumann.Answer(c, ch))
      case _ => None
    else None
  }

  /** Reads items separated by ", ". */
  function ReadEntries(s: string): Option<seq<Baumann.Answer>>
    decreases |s|
  {
    if |s| == 0 then Some([])
    else if |s| < 10 then None
    else
      match ReadEntry(s[..10])
      case None => None
      case Some(a) =>
        if |s| == 10 then Some([a])
        else if |s| > 12 && s[10..12] == ", " then
          match ReadEntries(s[12..])
          case Some(rest) => Some([a] + rest)
          case None => None
        else None
  }

  /** `json.loads` of an answers object as the bot writes them; None for any
      other text. */
  function DecodeAnswers(s: string): Option<seq<Baumann.Answer>> {
    if |s| >= 2 && s[0] == '{' && s[|s| - 1] == '}' then ReadEntries(s[1..|s| - 1]) else None
  }

  lemma ReadEntryText(a: Baumann.Answer)
    ensures ReadEntry(EntryText(a)) == Some(a)
  {
    var e := EntryText(a);
    assert e[1..4] == a.category.Key() && e[4..8] == "\": \"" && e[8..9] == Token(a.choice);
  }

  lemma {:induction false} JoinedEntriesRead(items: seq<Baumann.Answer>)
    ensures ReadEntries(Baumann.Join(EntryTexts(items), ", ")) == Some(items)
  {
    if |items| > 0 {
      var texts := EntryTexts(items);
      ReadEntryText(items[0]);
      if |items| == 1 {
        var s := Baumann.Join(texts, ", ");
        assert s == EntryText(items[0]) == s[..10];
        assert [items[0]] == items;
      } else {
        var tail := EntryTexts(items[1..]);
        var rest := Baumann.Join(tail, ", ");
        assert texts[1..] == tail;
        assert Baumann.Join(texts, ", ") == EntryText(items[0]) + ", " + rest;
        JoinedEntriesRead(items[1..]);
        assert tail[0] == EntryText(items[1]);
        ReadEntryText(items[1]);
        JoinCoversFirst(tail, ", ");
        ReadEntriesCons(EntryText(items[0]), rest, items[0]);
        assert [items[0]] + items[1..] == items;
      }
    }
  }

  /** A joined list is at least as long as its first part. */
  lemma JoinCoversFirst(parts: seq<string>, sep: string)
    requires |parts| > 0
    ensures |Baumann.Join(parts, sep)| >= |parts[0]|
  {
  }

  /** An item, the separator, and more items read as the item followed by the rest. */
  lemma ReadEntriesCons(e: string, rest: string, a: Baumann.Answer)
    requires |e| == 10 && ReadEntry(e) == Some(a) && |rest| > 0
    ensures ReadEntries(rest).Some? ==> ReadEntries(e + ", " + rest) == Some([a] + ReadEntries(rest).value)
  {
    var s := e + ", " + rest;
    assert s[..10] == e && s[10..12] == ", " && s[12..] == rest;
  }

  /** `handle_answer`: the choice overwrites the entry of the current question's
      axis and the index moves on; after the last question the answers are
      classified, stored under the patient id, and the conversation ends.
      A missing key or an index past the bank raises. The question at index k
      is on axis `AxisOf(k)`: the bank is sixteen questions, four per axis in
      the order O/D, S/R, P/N, W/T (`Baumann.QuestionBankLayout`). */
  function HandleAnswer(s: Session, ch: Choice): (r: Outcome)
    // only the answers and the index are ever written
    ensures r.session.data.(answers := s.data.answers, index := s.data.index) == s.data
    ensures r.status == Handled ==>
              && s.data.index.Some? && s.data.index.value < Baumann.QuestionCount && s.data.answers.Some?
              && r.session.data.index == Some(s.data.index.value + 1) && r.session.data.answers.Some?
    ensures r.status == Handled ==>
              var k := s.data.index.value;
              var before := s.data.answers.value;
              var after := r.session.data.answers.value;
              && Baumann.AxisOf(k) in after && after[Baumann.AxisOf(k)] == ch
              && (forall c :: c != Baumann.AxisOf(k) ==>
                    (c in after <==> c in before) && (c in before ==> after[c] == before[c]))
              && (r.session.phase == Quiz <==> k + 1 < Baumann.QuestionCount)
              && (r.session.phase == Idle <==> k + 1 == Baumann.QuestionCount)
    ensures r.status != Raised ==> r.status == Handled
    ensures r.status == Raised ==> r.session.phase == s.phase && r.effects == []
    ensures r.status == Handled && r.session.phase == Quiz ==> r.effects == []
    // the one store call, made on completion
    ensures r.status == Handled && r.session.phase == Idle ==>
              var after := r.session.data.answers.value;
              && s.data.idPatient.Some?
              && Baumann.Classify(Items(after)).Some?
              && r.effects == [StoreTestResults(s.data.idPatient.value, EncodeAnswers(after),
                                                Baumann.Classify(Items(after)).value.code)]
  {
    if s.data.index.None? then Outcome(s, [], Raised)
    else
      var k := s.data.index.value;
      if k >= Baumann.QuestionCount then Outcome(s, [], Raised)
      else if s.data.answers.None? then Outcome(s, [], Raised)
      else
        var answers := s.data.answers.value[Baumann.AxisOf(k) := ch];
        var data := s.data.(answers := Some(answers), index := Some(k + 1));
        if k + 1 >= Baumann.QuestionCount then
          match Baumann.Classify(Items(answers))
          case None => Outcome(s.(data := data), [], Raised)
          case Some(v) =>
            if s.data.idPatient.None? then Outcome(s.(data := data), [], Raised)
            else Outcome(Session(Idle, data), [StoreTestResults(s.data.idPatient.value, EncodeAnswers(answers), v.code)], Handled)
        else Outcome(Session(Quiz, data), [], Handled)
  }

  /** The reachable part of `request_dermatoscopy`: with no (or an empty) patient
      id it only replies; with one it calls the store with two of the three
      arguments it needs, which raises before anything is written. */
  function RequestDermatoscopy(s: Session): (r: Outcome)
    ensures r.session == s && r.effects == []
    ensures r.status == Handled <==> s.data.idPatient.None? || s.data.idPatient == Some("")
    ensures r.status != Ignored
  {
    match s.data.idPatient
    case None => Outcome(s, [], Handled)
    case Some(id) => if id == "" then Outcome(s, [], Handled) else Outcome(s, [], Raised)
  }

  // ----- routing -----

  /** How `run()` routes one update: the /start and /photo handlers come before
      the conversation; /test enters it only from outside (no re-entry); inside,
      each state takes only its own buttons (matched in full against the
      handler's pattern) and, in DEMO, non-command text. `freshId` is the value
      `uuid4()` would produce if the handler asks for one. */
  function Step(s: Session, e: Event, freshId: string): (r: Outcome)
    ensures |r.effects| <= 1
    ensures r.status == Ignored ==> r.session == s && r.effects == []
    ensures r.status == Raised ==> r.session.phase == s.phase && r.effects == []
    // the phase moves only along the edges of the conversation
    ensures r.session.phase != s.phase ==>
              || (s.phase == Idle && r.session.phase == Consent)
              || (s.phase == Consent && (r.session.phase == Demo || r.session.phase == Idle))
              || (s.phase == Demo && r.session.phase == Quiz)
              || (s.phase == Quiz && r.session.phase == Idle)
    // the patient id changes only together with the creation of its record
    ensures r.session.data.idPatient != s.data.idPatient ==>
              && s.phase == Demo && r.session.phase == Quiz
              && r.session.data.idPatient == Some(freshId)
              && |r.effects| == 1 && r.effects[0].CreateRecord? && r.effects[0].id == freshId
    ensures r.effects != [] && r.effects[0].CreateRecord? ==>
              && s.phase == Demo && r.session.phase == Quiz
              && r.session.data.idPatient == Some(freshId) && r.effects[0].id == freshId
    ensures r.effects != [] && r.effects[0].StoreTestResults? ==>
              && s.phase == Quiz && r.session.phase == Idle
              && s.data.idPatient == Some(r.effects[0].id)
  {
    match e
    case Command(name) =>
      if name == "start" then Outcome(s, [], Handled)
      else if name == "photo" then RequestDermatoscopy(s)
      else if name == "test" && s.phase == Idle then Outcome(s.(phase := Consent), [], Handled)
      else Outcome(s, [], Ignored)
    case Button(data) =>
      if s.phase == Consent && (data == "yes" || data == "no") then HandleConsent(s, data)
      else if s.phase == Demo && IsSex(data) then HandleDemo(s, e, freshId)
      else if s.phase == Quiz && (data == "A" || data == "B") then
        HandleAnswer(s, if data == "A" then Baumann.A else Baumann.B)
      else Outcome(s, [], Ignored)
    case Text(_) =>
      if s.phase == Demo then HandleDemo(s, e, freshId) else Outcome(s, [], Ignored)
  }

  /** What a sequence of updates leaves behind: the last session and every store
      call, in order. */
  datatype Trace = Trace(session: Session, effects: seq<Effect>)

  /** The updates in order, each handled by `step`; `ids[k]` is the id `uuid4()`
      would give at update k. */
  function Fold(step: (Session, Event, string) -> Outcome, s: Session, events: seq<Event>, ids: seq<string>): Trace
    requires |ids| == |events|
  {
    if |events| == 0 then Trace(s, [])
    else
      var n := |events| - 1;
      var prev := Fold(step, s, events[..n], ids[..n]);
      var o := step(prev.session, events[n], ids[n]);
      Trace(o.session, prev.effects + o.effects)
  }

  /** The bot's handling of a sequence of updates. */
  function Run(s: Session, events: seq<Event>, ids: seq<string>): (r: Trace)
    requires |ids| == |events|
    ensures |r.effects| <= |events|
  {
    FoldStepEffects(s, events, ids);
    Fold(Step, s, events, ids)
  }

  /** Each update makes at most one store call. */
  lemma {:induction false} FoldStepEffects(s: Session, events: seq<Event>, ids: seq<string>)
    requires |ids| == |events|
    ensures |Fold(Step, s, events, ids).effects| <= |events|
  {
    if |events| > 0 {
      var n := |events| - 1;
      FoldStepEffects(s, events[..n], ids[..n]);
    }
  }

  // ----- classification of the stored answers -----

  /** With an entry for every axis, the code is the letter of each axis's entry. */
  function EntryCode(m: map<Category, Choice>): string
    requires forall c: Category :: c in m
  {
    [Baumann.LetterFor(Baumann.OD, m[Baumann.OD]), Baumann.LetterFor(Baumann.SR, m[Baumann.SR]),
     Baumann.LetterFor(Baumann.PN, m[Baumann.PN]), Baumann.LetterFor(Baumann.WT, m[Baumann.WT])]
  }

  /** One answer on an axis decides it. */
  lemma SingleAnswerLetter(c: Category, x: Choice)
    ensures Baumann.Letter(c, [x]) == Some(Baumann.LetterFor(c, x))
  {
    var other := if x == Baumann.A then Baumann.B else Baumann.A;
    assert [x][1..] == [];
    assert Baumann.Count([x], x) == 1;
    assert Baumann.Count([x], other) == 0;
  }

  lemma ItemsOfFullMap(m: map<Category, Choice>)
    requires forall c: Category :: c in m
    ensures Items(m) == Baumann.Block(Baumann.OD, [m[Baumann.OD]]) + Baumann.Block(Baumann.SR, [m[Baumann.SR]])
                      + Baumann.Block(Baumann.PN, [m[Baumann.PN]]) + Baumann.Block(Baumann.WT, [m[Baumann.WT]])
  {
    assert Baumann.Block(Baumann.OD, [m[Baumann.OD]]) == Entry(m, Baumann.OD);
    assert Baumann.Block(Baumann.SR, [m[Baumann.SR]]) == Entry(m, Baumann.SR);
    assert Baumann.Block(Baumann.PN, [m[Baumann.PN]]) == Entry(m, Baumann.PN);
    assert Baumann.Block(Baumann.WT, [m[Baumann.WT]]) == Entry(m, Baumann.WT);
  }

  /** Classifying the items of a complete `answers_json` never raises, and each
      letter is the one the axis's single stored answer votes for: with one
      entry per axis there is nothing left to tally. */
  lemma FullMapVerdict(m: map<Category, Choice>)
    requires forall c: Category :: c in m
    ensures Baumann.Classify(Items(m)) == Some(Baumann.Verdict(EntryCode(m), Baumann.Explain(EntryCode(m))))
  {
    var items := Items(m);
    var x0, x1, x2, x3 := [m[Baumann.OD]], [m[Baumann.SR]], [m[Baumann.PN]], [m[Baumann.WT]];
    assert Baumann.Letter(Baumann.OD, Baumann.Filter(items, Baumann.OD)) == Some(Baumann.LetterFor(Baumann.OD, m[Baumann.OD])) by {
      ItemsOfFullMap(m);
      Baumann.FilterOfFourBlocks(x0, x1, x2, x3, Baumann.OD);
      SingleAnswerLetter(Baumann.OD, m[Baumann.OD]);
    }
    assert Baumann.Letter(Baumann.SR, Baumann.Filter(items, Baumann.SR)) == Some(Baumann.LetterFor(Baumann.SR, m[Baumann.SR])) by {
      ItemsOfFullMap(m);
      Baumann.FilterOfFourBlocks(x0, x1, x2, x3, Baumann.SR);
      SingleAnswerLetter(Baumann.SR, m[Baumann.SR]);
    }
    assert Baumann.Letter(Baumann.PN, Baumann.Filter(items, Baumann.PN)) == Some(Baumann.LetterFor(Baumann.PN, m[Baumann.PN])) by {
      ItemsOfFullMap(m);
      Baumann.FilterOfFourBlocks(x0, x1, x2, x3, Baumann.PN);
      SingleAnswerLetter(Baumann.PN, m[Baumann.PN]);
    }
    assert Baumann.Letter(Baumann.WT, Baumann.Filter(items, Baumann.WT)) == Some(Baumann.LetterFor(Baumann.WT, m[Baumann.WT])) by {
      ItemsOfFullMap(m);
      Baumann.FilterOfFourBlocks(x0, x1, x2, x3, Baumann.WT);
      SingleAnswerLetter(Baumann.WT, m[Baumann.WT]);
    }
  }

  // ----- the Q_STATE invariant -----

  /** What holds whenever the conversation is in Q_STATE: the patient has an id,
      the index names a question of the bank, and exactly the axes of the
      questions already answered have an entry. */
  predicate QuizReady(s: Session) {
    s.phase == Quiz ==>
      && s.data.idPatient.Some? && s.data.answers.Some? && s.data.index.Some?
      && s.data.index.value < Baumann.QuestionCount
      && forall c: Category :: c in s.data.answers.value <==> 4 * c.Index() < s.data.index.value
  }

  /** In a ready quiz an answer button never makes `handle_answer` raise, and the
      quiz stays ready. */
  lemma AnswerInQuizIsHandled(s: Session, ch: Choice)
    requires QuizReady(s) && s.phase == Quiz
    ensures HandleAnswer(s, ch).status == Handled
    ensures QuizReady(HandleAnswer(s, ch).session)
  {
    var k := s.data.index.value;
    var axis := Baumann.AxisOf(k);
    var after := s.data.answers.value[axis := ch];
    forall c: Category
      ensures c in after <==> 4 * c.Index() < k + 1
    {
      Baumann.AxisOfIndex(k, c);
    }
    if k + 1 == Baumann.QuestionCount {
      FullMapVerdict(after);
    }
  }

  /** Every update keeps the Q_STATE invariant. */
  lemma StepKeepsQuizReady(s: Session, e: Event, freshId: string)
    requires QuizReady(s)
    ensures QuizReady(Step(s, e, freshId).session)
  {
    if s.phase == Quiz && e.Button? && (e.data == "A" || e.data == "B") {
      AnswerInQuizIsHandled(s, if e.data == "A" then Baumann.A else Baumann.B);
    }
  }

  /** Any run keeps the Q_STATE invariant, so a user who has never been in the
      quiz can never make an answer raise. */
  lemma {:induction false} RunKeepsQuizReady(s: Session, events: seq<Event>, ids: seq<string>)
    requires |ids| == |events| && QuizReady(s)
    ensures QuizReady(Run(s, events, ids).session)
  {
    if |events| > 0 {
      var n := |events| - 1;
      RunKeepsQuizReady(s, events[..n], ids[..n]);
      StepKeepsQuizReady(Run(s, events[..n], ids[..n]).session, events[n], ids[n]);
    }
  }

  /** From a fresh user, after any updates at all, an answer button in Q_STATE is
      handled without an exception. */
  lemma ReachableAnswersAreHandled(events: seq<Event>, ids: seq<string>, data: string, freshId: string)
    requires |ids| == |events|
    requires Run(Session(Idle, NoData), events, ids).session.phase == Quiz
    requires data == "A" || data == "B"
    ensures Step(Run(Session(Idle, NoData), events, ids).session, Button(data), freshId).status == Handled
  {
    RunKeepsQuizReady(Session(Idle, NoData), events, ids);
    AnswerInQuizIsHandled(Run(Session(Idle, NoData), events, ids).session, if data == "A" then Baumann.A else Baumann.B);
  }

  // ----- store calls along a run -----

  /** The record of id was created by one of these store calls. */
  predicate Created(effects: seq<Effect>, id: string) {
    exists j :: 0 <= j < |effects| && effects[j].CreateRecord? && effects[j].id == id
  }

  /** Every quiz result is stored under an id whose record an earlier call created. */
  predicate StoresFollowCreation(effects: seq<Effect>) {
    forall k :: 0 <= k < |effects| && effects[k].StoreTestResults? ==> Created(effects[..k], effects[k].id)
  }

  /** What a run keeps about its store calls: results follow creation, and in
      Q_STATE the session's patient has been created. */
  predicate Linked(tr: Trace) {
    && StoresFollowCreation(tr.effects)
    && (tr.session.phase == Quiz ==> tr.session.data.idPatient.Some? && Created(tr.effects, tr.session.data.idPatient.value))
  }

  /** One update keeps the link between the store calls made so far and the session. */
  lemma StepKeepsLinked(tr: Trace, e: Event, freshId: string)
    requires Linked(tr)
    ensures var o := Step(tr.session, e, freshId); Linked(Trace(o.session, tr.effects + o.effects))
  {
    var o := Step(tr.session, e, freshId);
    var all := tr.effects + o.effects;
    forall k | 0 <= k < |all| && all[k].StoreTestResults?
      ensures Created(all[..k], all[k].id)
    {
      if k < |tr.effects| {
        assert all[..k] == tr.effects[..k];
      } else {
        assert all[..k] == tr.effects;
      }
    }
    if o.session.phase == Quiz {
      if tr.session.phase == Quiz {
        var id := tr.session.data.idPatient.value;
        var j :| 0 <= j < |tr.effects| && tr.effects[j].CreateRecord? && tr.effects[j].id == id;
        assert all[j] == tr.effects[j];
      } else {
        assert all[|tr.effects|] == o.effects[0];
      }
    }
  }

  /** The last update of a run extends the link of the run before it. */
  lemma RunStepKeepsLinked(s: Session, events: seq<Event>, ids: seq<string>)
    requires |ids| == |events| && |events| > 0
    requires Linked(Run(s, events[..|events| - 1], ids[..|events| - 1]))
    ensures Linked(Run(s, events, ids))
  {
    var n := |events| - 1;
    StepKeepsLinked(Run(s, events[..n], ids[..n]), events[n], ids[n]);
  }

  /** In any run that does not start inside the quiz, `save_test_results` is only
      ever called for a patient whose `save_initial_data` came first, and while in
      Q_STATE the session's id is such a patient. */
  lemma {:induction false} RunStoresFollowCreation(s: Session, events: seq<Event>, ids: seq<string>)
    requires |ids| == |events| && s.phase != Quiz
    ensures Linked(Run(s, events, ids))
  {
    if |events| > 0 {
      var n := |events| - 1;
      RunStoresFollowCreation(s, events[..n], ids[..n]);
      RunStepKeepsLinked(s, events, ids);
    }
  }

  // ----- a whole quiz -----

  /** The answer buttons for the choices cs, pressed in order. */
  function Buttons(cs: seq<Choice>): seq<Event> {
    seq(|cs|, k requires 0 <= k < |cs| => Button(Token(cs[k])))
  }

  /** Q_STATE as the allergies step leaves it: a patient id, no entries, index 0. */
  predicate QuizStart(s: Session) {
    s.phase == Quiz && s.data.idPatient.Some? && s.data.answers == Some(map[]) && s.data.index == Some(0)
  }

  /** The entries `answers_json` holds after the first n of the choices cs: each
      axis reached so far maps to the choice made on its latest question. */
  function LastAnswers(cs: seq<Choice>, n: nat): map<Category, Choice>
    requires n <= |cs|
  {
    map c: Category | 4 * c.Index() < n :: cs[if n < 4 * c.Index() + 4 then n - 1 else 4 * c.Index() + 3]
  }

  /** The code of a complete quiz under last-write-wins: per axis, the letter of
      the fourth (last) question's answer. */
  function LastAnswerCode(cs: seq<Choice>): string
    requires |cs| == Baumann.QuestionCount
  {
    [Baumann.LetterFor(Baumann.OD, cs[3]), Baumann.LetterFor(Baumann.SR, cs[7]),
     Baumann.LetterFor(Baumann.PN, cs[11]), Baumann.LetterFor(Baumann.WT, cs[15])]
  }

  /** Answering question n overwrites its axis's entry and leaves the others. */
  lemma LastAnswersStep(cs: seq<Choice>, n: nat)
    requires n < Baumann.QuestionCount <= |cs|
    ensures LastAnswers(cs, n + 1) == LastAnswers(cs, n)[Baumann.AxisOf(n) := cs[n]]
  {
    var after := LastAnswers(cs, n + 1);
    var expected := LastAnswers(cs, n)[Baumann.AxisOf(n) := cs[n]];
    forall c: Category
      ensures (c in after <==> c in expected) && (c in after ==> after[c] == expected[c])
    {
      Baumann.AxisOfIndex(n, c);
    }
  }

  /** An answer button on any question but the last: the entry of the question's
      axis is overwritten, the index moves on, nothing is stored. */
  lemma AnswerButtonStep(q: Session, ch: Choice, freshId: string)
    requires q.phase == Quiz && q.data.answers.Some? && q.data.index.Some?
    requires q.data.index.value + 1 < Baumann.QuestionCount
    ensures Step(q, Button(Token(ch)), freshId) ==
              Outcome(Session(Quiz, q.data.(answers := Some(q.data.answers.value[Baumann.AxisOf(q.data.index.value) := ch]),
                                            index := Some(q.data.index.value + 1))), [], Handled)
  {
  }

  /** The answer button on the last question, once every axis has an entry: the
      conversation ends and the results are stored once, under the patient id. */
  lemma LastButtonStep(q: Session, ch: Choice, freshId: string)
    requires q.phase == Quiz && q.data.answers.Some? && q.data.idPatient.Some?
    requires q.data.index == Some(Baumann.QuestionCount - 1)
    requires forall c: Category :: c != Baumann.WT ==> c in q.data.answers.value
    ensures var after := q.data.answers.value[Baumann.WT := ch];
            Step(q, Button(Token(ch)), freshId) ==
              Outcome(Session(Idle, q.data.(answers := Some(after), index := Some(Baumann.QuestionCount))),
                      [StoreTestResults(q.data.idPatient.value, EncodeAnswers(after), EntryCode(after))], Handled)
  {
    FullMapVerdict(q.data.answers.value[Baumann.WT := ch]);
  }

  /** After n < 16 answer buttons the quiz is still in Q_STATE at index n with
      the last answer of each axis reached, and nothing has been stored yet. */
  lemma {:induction false} QuizPrefix(s: Session, cs: seq<Choice>, ids: seq<string>, n: nat)
    requires QuizStart(s) && |cs| == Baumann.QuestionCount && |ids| == |cs| && n < |cs|
    ensures Run(s, Buttons(cs)[..n], ids[..n]) ==
              Trace(Session(Quiz, s.data.(answers := Some(LastAnswers(cs, n)), index := Some(n))), [])
  {
    if n == 0 {
      assert Buttons(cs)[..0] == [];
      assert LastAnswers(cs, 0) == map[];
    } else {
      QuizPrefix(s, cs, ids, n - 1);
      var events := Buttons(cs)[..n];
      assert events[..n - 1] == Buttons(cs)[..n - 1];
      assert ids[..n][..n - 1] == ids[..n - 1];
      var prev := Run(s, Buttons(cs)[..n - 1], ids[..n - 1]);
      AnswerButtonStep(prev.session, cs[n - 1], ids[n - 1]);
      LastAnswersStep(cs, n - 1);
    }
  }

  /** A complete quiz, started as the allergies step leaves it, ends the
      conversation after the sixteenth button with exactly one store call: the
      patient's results, with the answers of the last question on each axis and
      the code they alone decide. Earlier answers on an axis are overwritten and
      play no part. */
  lemma QuizRecordsLastAnswers(s: Session, cs: seq<Choice>, ids: seq<string>)
    requires QuizStart(s) && |cs| == Baumann.QuestionCount && |ids| == |cs|
    ensures Run(s, Buttons(cs), ids).session.phase == Idle
    ensures Run(s, Buttons(cs), ids).session.data.answers == Some(LastAnswers(cs, Baumann.QuestionCount))
    ensures Run(s, Buttons(cs), ids).effects ==
              [StoreTestResults(s.data.idPatient.value, EncodeAnswers(LastAnswers(cs, Baumann.QuestionCount)),
                                LastAnswerCode(cs))]
  {
    var n := Baumann.QuestionCount - 1;
    var events := Buttons(cs);
    QuizPrefix(s, cs, ids, n);
    RunLast(s, events, ids);
    var prev := Run(s, events[..n], ids[..n]);
    LastAnswersStep(cs, n);
    FullLastAnswers(cs);
    LastButtonStep(prev.session, cs[n], ids[n]);
  }

  /** The last update of a run, taken on its own. */
  lemma RunLast(s: Session, events: seq<Event>, ids: seq<string>)
    requires |ids| == |events| > 0
    ensures var n := |events| - 1;
            var prev := Run(s, events[..n], ids[..n]);
            var o := Step(prev.session, events[n], ids[n]);
            Run(s, events, ids) == Trace(o.session, prev.effects + o.effects)
  {
  }

  /** After all sixteen questions every axis has an entry: its fourth answer. */
  lemma FullLastAnswers(cs: seq<Choice>)
    requires |cs| == Baumann.QuestionCount
    ensures forall c: Category :: c in LastAnswers(cs, Baumann.QuestionCount)
    ensures EntryCode(LastAnswers(cs, Baumann.QuestionCount)) == LastAnswerCode(cs)
  {
  }

  /** A 3-1 majority on an axis. */
  lemma MajorityOfThree(c: Category)
    ensures Baumann.Letter(c, [Baumann.A, Baumann.A, Baumann.A, Baumann.B]) == Some(c.First())
  {
    assert Baumann.Count([Baumann.A, Baumann.A, Baumann.A, Baumann.B], Baumann.A) == 3;
    assert Baumann.Count([Baumann.A, Baumann.A, Baumann.A, Baumann.B], Baumann.B) == 1;
  }

  /** The two answer loops disagree: answering A, A, A, B on an axis, the
      accumulating loop of dermai_bot.py gives the axis's first letter by
      majority, while utils/bot.py, keeping only the last answer, stores the
      second letter. */
  lemma LastAnswerOverridesMajority(s: Session, cs: seq<Choice>, ids: seq<string>, c: Category)
    requires QuizStart(s) && |cs| == Baumann.QuestionCount && |ids| == |cs|
    requires cs[4 * c.Index()..4 * c.Index() + 4] == [Baumann.A, Baumann.A, Baumann.A, Baumann.B]
    ensures var stored := Run(s, Buttons(cs), ids).effects;
            && |stored| == 1 && stored[0].StoreTestResults? && |stored[0].skinCode| == 4
            && stored[0].skinCode[c.Index()] == c.Second()
    ensures var quiz := Baumann.Replay(cs);
            && quiz.Finished? && |quiz.verdict.code| == 4
            && quiz.verdict.code[c.Index()] == c.First()
  {
    assert cs[4 * c.Index() + 3] == Baumann.B;
    BotLetterIsLastAnswer(s, cs, ids, c);
    MajorityLetter(cs, c);
  }

  /** The stored code's letter for an axis whose last answer is B. */
  lemma BotLetterIsLastAnswer(s: Session, cs: seq<Choice>, ids: seq<string>, c: Category)
    requires QuizStart(s) && |cs| == Baumann.QuestionCount && |ids| == |cs|
    requires cs[4 * c.Index() + 3] == Baumann.B
    ensures var stored := Run(s, Buttons(cs), ids).effects;
            && |stored| == 1 && stored[0].StoreTestResults? && |stored[0].skinCode| == 4
            && stored[0].skinCode[c.Index()] == c.Second()
  {
    QuizRecordsLastAnswers(s, cs, ids);
    LastAnswerCodeLetter(cs, c);
  }

  /** Each letter of the last-answer code is the letter of the axis's fourth answer. */
  lemma LastAnswerCodeLetter(cs: seq<Choice>, c: Category)
    requires |cs| == Baumann.QuestionCount
    ensures |LastAnswerCode(cs)| == 4
    ensures LastAnswerCode(cs)[c.Index()] == Baumann.LetterFor(c, cs[4 * c.Index() + 3])
  {
  }

  lemma MajorityLetter(cs: seq<Choice>, c: Category)
    requires |cs| == Baumann.QuestionCount
    requires cs[4 * c.Index()..4 * c.Index() + 4] == [Baumann.A, Baumann.A, Baumann.A, Baumann.B]
    ensures var quiz := Baumann.Replay(cs);
            && quiz.Finished? && |quiz.verdict.code| == 4
            && quiz.verdict.code[c.Index()] == c.First()
  {
    Baumann.ReplayInvariant(cs);
    var i := c.Index();
    assert Baumann.Categories[i] == c;
    Baumann.ClassifyLetter(Baumann.AnswersFor(cs), i);
    Baumann.FilterOfFullRun(cs, i);
    MajorityOfThree(c);
  }

  // ----- consent and demographics -----

  /** In CONSENT only the two consent buttons are routed: "yes" goes on to the
      demographics, "no" ends the conversation, and nothing is stored. */
  lemma ConsentButtons(s: Session, data: string, freshId: string)
    requires s.phase == Consent
    ensures var r := Step(s, Button(data), freshId);
            && r.effects == [] && r.session.data == s.data
            && (r.session.phase == Demo <==> data == "yes")
            && (r.session.phase == Idle <==> data == "no")
  {
    if data == "yes" {
      PyText.LowerFixed(data);
    } else if data == "no" {
      PyText.LowerFixed(data);
    }
  }

  /** The sex step takes either sex button as is; a text message there makes the
      handler raise and changes nothing. */
  lemma SexStep(s: Session, data: string, text: string, freshId: string)
    requires s.phase == Demo && s.data.sex.None? && IsSex(data)
    ensures Step(s, Button(data), freshId) == Outcome(s.(data := s.data.(sex := Some(data))), [], Handled)
    ensures Step(s, Text(text), freshId) == Outcome(s, [], Raised)
  {
    PyText.UpperFixed(data);
  }

  /** The age step accepts the decimal spelling of every integer, negative or
      far beyond a human age alike: there is no range check. */
  lemma AgeAcceptsAnyInteger(s: Session, n: int, freshId: string)
    requires s.phase == Demo && s.data.sex.Some? && s.data.age.None?
    ensures Step(s, Text(PyText.IntToString(n)), freshId) == Outcome(s.(data := s.data.(age := Some(n))), [], Handled)
  {
    var text := PyText.IntToString(n);
    PyText.ParseIntRoundTrip(n);
    AgeStep(s, text, n, freshId);
  }

  /** The age step on a text that parses as n. */
  lemma AgeStep(s: Session, text: string, n: int, freshId: string)
    requires s.phase == Demo && s.data.sex.Some? && s.data.age.None?
    requires PyText.ParseInt(text) == Some(n)
    ensures Step(s, Text(text), freshId) == Outcome(s.(data := s.data.(age := Some(n))), [], Handled)
  {
  }

  /** Text with no digit leaves the age unset; the step asks again. */
  lemma AgeRejectsNonNumbers(s: Session, text: string, freshId: string)
    requires s.phase == Demo && s.data.sex.Some? && s.data.age.None?
    requires forall i :: 0 <= i < |text| ==> !PyText.IsDigit(text[i])
    ensures Step(s, Text(text), freshId) == Outcome(s, [], Handled)
  {
    assert PyText.ParseInt(text).None?;
  }

  /** The allergies step stores the text verbatim, creates the patient record
      under a fresh id and starts the quiz, all before any answer. */
  lemma AllergiesStep(s: Session, text: string, freshId: string)
    requires s.phase == Demo && s.data.sex.Some? && s.data.age.Some?
    ensures var r := Step(s, Text(text), freshId);
            && QuizStart(r.session) && QuizReady(r.session)
            && r.session.data.allergies == Some(text) && r.session.data.idPatient == Some(freshId)
            && r.effects == [CreateRecord(freshId, s.data.age.value, s.data.sex.value, text)]
  {
  }

  // ----- whole conversations -----

  /** Running two batches of updates is running the first, then the second from
      where the first left off. */
  lemma {:induction false} FoldAppend(step: (Session, Event, string) -> Outcome, s: Session,
                                      a: seq<Event>, ia: seq<string>, b: seq<Event>, ib: seq<string>)
    requires |ia| == |a| && |ib| == |b|
    ensures var first := Fold(step, s, a, ia);
            var second := Fold(step, first.session, b, ib);
            Fold(step, s, a + b, ia + ib) == Trace(second.session, first.effects + second.effects)
  {
    if |b| > 0 {
      var n := |b| - 1;
      FoldAppend(step, s, a, ia, b[..n], ib[..n]);
      assert (a + b)[..|a| + n] == a + b[..n];
      assert (ia + ib)[..|a| + n] == ia + ib[..n];
    } else {
      assert a + b == a;
      assert ia + ib == ia;
    }
  }

  lemma RunAppend(s: Session, a: seq<Event>, ia: seq<string>, b: seq<Event>, ib: seq<string>)
    requires |ia| == |a| && |ib| == |b|
    ensures var first := Run(s, a, ia);
            var second := Run(first.session, b, ib);
            Run(s, a + b, ia + ib) == Trace(second.session, first.effects + second.effects)
  {
    FoldAppend(Step, s, a, ia, b, ib);
  }

  /** The updates of a first-time user before the quiz: /test, consent, the sex
      button, the age and the allergies. */
  function Intake(sex: string, age: int, allergies: string): seq<Event> {
    [Command("test"), Button("yes"), Button(sex), Text(PyText.IntToString(age)), Text(allergies)]
  }

  /** /test and "yes" bring a first-time user to the sex step. */
  lemma IntakeConsents(sex: string, age: int, allergies: string, ids: seq<string>)
    requires |ids| == 5
    ensures Run(Session(Idle, NoData), Intake(sex, age, allergies)[..2], ids[..2]) == Trace(Session(Demo, NoData), [])
  {
    var ev := Intake(sex, age, allergies);
    var s0 := Session(Idle, NoData);
    assert Run(s0, ev[..1], ids[..1]) == Trace(Session(Consent, NoData), []) by {
      RunLast(s0, ev[..1], ids[..1]);
      assert ev[..1][..0] == [];
    }
    RunLast(s0, ev[..2], ids[..2]);
    assert ev[..2][..1] == ev[..1] && ids[..2][..1] == ids[..1];
    ConsentButtons(Session(Consent, NoData), "yes", ids[1]);
  }

  /** The sex button fills in the first demographic. */
  lemma IntakeSex(sex: string, age: int, allergies: string, ids: seq<string>)
    requires IsSex(sex) && |ids| == 5
    ensures Run(Session(Idle, NoData), Intake(sex, age, allergies)[..3], ids[..3]) ==
              Trace(Session(Demo, NoData.(sex := Some(sex))), [])
  {
    var ev := Intake(sex, age, allergies);
    var s0 := Session(Idle, NoData);
    IntakeConsents(sex, age, allergies, ids);
    RunLast(s0, ev[..3], ids[..3]);
    assert ev[..3][..2] == ev[..2] && ids[..3][..2] == ids[..2];
    SexStep(Session(Demo, NoData), sex, "", ids[2]);
  }

  /** The sex button and the age text fill in the first two demographics. */
  lemma IntakeDemographics(sex: string, age: int, allergies: string, ids: seq<string>)
    requires IsSex(sex) && |ids| == 5
    ensures Run(Session(Idle, NoData), Intake(sex, age, allergies)[..4], ids[..4]) ==
              Trace(Session(Demo, NoData.(sex := Some(sex), age := Some(age))), [])
  {
    var ev := Intake(sex, age, allergies);
    var s0 := Session(Idle, NoData);
    var s3 := Session(Demo, NoData.(sex := Some(sex)));
    IntakeSex(sex, age, allergies, ids);
    assert Step(s3, ev[3], ids[3]) == Outcome(s3.(data := s3.data.(age := Some(age))), [], Handled) by {
      AgeAcceptsAnyInteger(s3, age, ids[3]);
    }
    RunLast(s0, ev[..4], ids[..4]);
    assert ev[..4][..3] == ev[..3] && ids[..4][..3] == ids[..3];
  }

  /** A first-time user who consents and answers the demographics ends up at the
      start of the quiz, with one record created under the id minted at the
      allergies step. */
  lemma IntakeCreatesRecord(sex: string, age: int, allergies: string, ids: seq<string>)
    requires IsSex(sex) && |ids| == 5
    ensures var tr := Run(Session(Idle, NoData), Intake(sex, age, allergies), ids);
            && QuizStart(tr.session)
            && tr.session.data == UserData(Some(sex), Some(age), Some(allergies), Some(ids[4]), Some(map[]), Some(0))
            && tr.effects == [CreateRecord(ids[4], age, sex, allergies)]
  {
    var ev := Intake(sex, age, allergies);
    IntakeDemographics(sex, age, allergies, ids);
    RunLast(Session(Idle, NoData), ev, ids);
    assert ev[..4] == ev[..|ev| - 1] && ids[..4] == ids[..|ev| - 1];
    AllergiesStep(Session(Demo, NoData.(sex := Some(sex), age := Some(age))), allergies, ids[4]);
  }

  /** A first-time user's whole conversation makes exactly two store calls, in
      order: the record with the demographics, then under the same id the quiz
      results with the code of each axis's last answer. The conversation is
      over afterwards. */
  lemma FirstConversation(sex: string, age: int, allergies: string, cs: seq<Choice>, ids: seq<string>)
    requires IsSex(sex) && |cs| == Baumann.QuestionCount && |ids| == 5 + |cs|
    ensures var tr := Run(Session(Idle, NoData), Intake(sex, age, allergies) + Buttons(cs), ids);
            && tr.session.phase == Idle
            && tr.effects == [CreateRecord(ids[4], age, sex, allergies),
                              StoreTestResults(ids[4], EncodeAnswers(LastAnswers(cs, Baumann.QuestionCount)),
                                               LastAnswerCode(cs))]
  {
    var intake := Intake(sex, age, allergies);
    IntakeCreatesRecord(sex, age, allergies, ids[..5]);
    RunAppend(Session(Idle, NoData), intake, ids[..5], Buttons(cs), ids[5..]);
    assert ids[..5] + ids[5..] == ids;
    QuizRecordsLastAnswers(Run(Session(Idle, NoData), intake, ids[..5]).session, cs, ids[5..]);
  }

  /** A returning user keeps sex and age from the first conversation: after
      /test and consent the very next text is taken as the allergies, and a new
      record is created under a new id with the old demographics. */
  lemma ReturningUserSkipsDemographics(s: Session, allergies: string, ids: seq<string>)
    requires s.phase == Idle && s.data.sex.Some? && s.data.age.Some? && |ids| == 3
    ensures var tr := Run(s, [Command("test"), Button("yes"), Text(allergies)], ids);
            && QuizStart(tr.session)
            && tr.session.data.idPatient == Some(ids[2])
            && tr.effects == [CreateRecord(ids[2], s.data.age.value, s.data.sex.value, allergies)]
  {
    var ev := [Command("test"), Button("yes"), Text(allergies)];
    var s1 := s.(phase := Consent);
    var s2 := s.(phase := Demo);
    assert Run(s, ev[..1], ids[..1]) == Trace(s1, []) by {
      RunLast(s, ev[..1], ids[..1]);
      assert ev[..1][..0] == [];
    }
    assert Run(s, ev[..2], ids[..2]) == Trace(s2, []) by {
      RunLast(s, ev[..2], ids[..2]);
      assert ev[..2][..1] == ev[..1] && ids[..2][..1] == ids[..1];
      ConsentButtons(s1, "yes", ids[1]);
    }
    RunLast(s, ev, ids);
    assert ev[..2] == ev[..|ev| - 1] && ids[..2] == ids[..|ev| - 1];
    AllergiesStep(s2, allergies, ids[2]);
  }

  /** /photo never writes the store: without a patient id it only replies, and
      with one the handler raises before its first store call. */
  lemma PhotoNeverStores(s: Session, freshId: string)
    ensures var r := Step(s, Command("photo"), freshId);
            && r.effects == [] && r.session == s
            && (r.status == Raised <==> s.data.idPatient.Some? && s.data.idPatient.value != "")
  {
  }

  // ----- the store calls, applied to the table -----

  /** The store function an effect calls; the bot passes no season, so
      `time_of_year` is the default "". */
  function ApplyEffect(t: Dataset.Table, e: Effect): (r: Dataset.Table)
    ensures Dataset.OnlyRowsOf(t, r, e.id) && |r| <= |t| + 1
    ensures e.CreateRecord? ==> |r| == |t| + 1
  {
    match e
    case CreateRecord(id, age, sex, allergies) =>
      Dataset.AppendOnlyRowsOf(t, Dataset.InitialRow(id, age, sex, allergies), id);
      Dataset.SaveInitialData(t, id, age, sex, allergies)
    case StoreTestResults(id, answersJson, skinCode) =>
      Dataset.TestResultsOnlyRowsOf(t, id, answersJson, skinCode, "");
      Dataset.SaveTestResults(t, id, answersJson, skinCode, "")
  }

  /** The table after the store calls es, in order. */
  function ApplyEffects(t: Dataset.Table, es: seq<Effect>): Dataset.Table {
    if |es| == 0 then t else ApplyEffect(ApplyEffects(t, es[..|es| - 1]), es[|es| - 1])
  }

  /** How many of the store calls create a record. */
  function CreateCount(es: seq<Effect>): nat {
    if |es| == 0 then 0 else CreateCount(es[..|es| - 1]) + (if es[|es| - 1].CreateRecord? then 1 else 0)
  }

  predicate HasRow(t: Dataset.Table, id: string) {
    exists j :: 0 <= j < |t| && t[j].idPatient == id
  }

  /** No store call removes a row or changes a row's id; creating a record
      leaves a row with its id. */
  lemma ApplyEffectKeepsIds(t: Dataset.Table, e: Effect)
    ensures |ApplyEffect(t, e)| >= |t|
    ensures forall j :: 0 <= j < |t| ==> ApplyEffect(t, e)[j].idPatient == t[j].idPatient
    ensures e.CreateRecord? ==> HasRow(ApplyEffect(t, e), e.id)
  {
    if e.CreateRecord? {
      assert ApplyEffect(t, e)[|t|].idPatient == e.id;
    }
  }

  /** Once created, a record's row stays in the table. */
  lemma {:induction false} CreatedHasRow(t: Dataset.Table, es: seq<Effect>, id: string)
    requires Created(es, id)
    ensures HasRow(ApplyEffects(t, es), id)
  {
    var n := |es| - 1;
    var before := ApplyEffects(t, es[..n]);
    ApplyEffectKeepsIds(before, es[n]);
    if es[n].CreateRecord? && es[n].id == id {
    } else {
      var j :| 0 <= j < |es| && es[j].CreateRecord? && es[j].id == id;
      assert es[..n][j] == es[j];
      CreatedHasRow(t, es[..n], id);
      var k :| 0 <= k < |before| && before[k].idPatient == id;
      assert ApplyEffects(t, es)[k].idPatient == id;
    }
  }

  /** When every result follows its record's creation, `save_test_results`
      always finds the row and never appends one: the table grows by exactly
      the records created. */
  lemma {:induction false} StoredResultsNeverAppend(t: Dataset.Table, es: seq<Effect>)
    requires StoresFollowCreation(es)
    ensures |ApplyEffects(t, es)| == |t| + CreateCount(es)
  {
    if |es| > 0 {
      var n := |es| - 1;
      assert StoresFollowCreation(es[..n]) by {
        forall k | 0 <= k < n && es[..n][k].StoreTestResults?
          ensures Created(es[..n][..k], es[..n][k].id)
        {
          assert es[..n][..k] == es[..k];
          assert es[..n][k] == es[k];
        }
      }
      StoredResultsNeverAppend(t, es[..n]);
      if es[n].StoreTestResults? {
        CreatedHasRow(t, es[..n], es[n].id);
      }
    }
  }

  /** Whatever updates arrive, the only rows the bot adds to the table are the
      records `save_initial_data` creates: quiz results always land on an
      existing record. */
  lemma ConversationsOnlyAddRecords(t: Dataset.Table, s: Session, events: seq<Event>, ids: seq<string>)
    requires |ids| == |events| && s.phase != Quiz
    ensures var es := Run(s, events, ids).effects;
            |ApplyEffects(t, es)| == |t| + CreateCount(es)
  {
    RunStoresFollowCreation(s, events, ids);
    StoredResultsNeverAppend(t, Run(s, events, ids).effects);
  }

  /** The two store calls of a first conversation (see FirstConversation), made
      under an id not yet in the table, add one row: the demographics with the
      answers and the code, and no season, dermatoscopy or match yet. */
  lemma CreateThenStore(t: Dataset.Table, id: string, age: int, sex: string, allergies: string,
                        answersJson: string, skinCode: string)
    requires forall j :: 0 <= j < |t| ==> t[j].idPatient != id
    ensures Dataset.SaveTestResults(Dataset.SaveInitialData(t, id, age, sex, allergies), id, answersJson, skinCode, "") ==
              t + [Dataset.Row(id, Some(age), sex, allergies, answersJson, skinCode, "", None, "", "")]
  {
    var created := Dataset.SaveInitialData(t, id, age, sex, allergies);
    assert Dataset.FindRow(created, id) == Some(|t|);
  }
}
