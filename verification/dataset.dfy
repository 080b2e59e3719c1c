/** The CSV-backed patient store of utils/dataset_csv.py, as whole-table
    functions over a sequence of rows, and the comparison that merges the quiz
    code with the dermatoscopy code. Every store call runs under one global lock
    and reads and rewrites the whole file, so each call is one atomic function
    from table to table here. */
module Dataset {
  import opened Wrappers
  import PyText

  /** One CSV row, in the column order of HEADERS. An empty cell is None for the
      two numeric columns and "" for the others. */
  datatype Row = Row(
    idPatient: string,
    age: Option<int>,
    sex: string,
    allergies: string,
    answersJson: string,
    skinCode: string,
    skinTypeDermatoscopy: string,
    matchPercent: Option<nat>,
    finalSkinType: string,
    timeOfYear: string)

  type Table = seq<Row>

  /** What `compare_skin_types` returns. The percentage is the integer
      25 * matches (the source's float round(matches / 4 * 100, 2) has the same
      value). */
  datatype Comparison = Comparison(matchPercent: nat, finalSkinType: string)

  function Min(a: nat, b: nat): nat {
    if a <= b then a else b
  }

  // ----- compare_skin_types -----

  /** `(s or "").strip().upper()[:4]`. */
  function Normalize(s: string): (r: string)
    ensures |r| <= 4
  {
    var u := PyText.Upper(PyText.Strip(PyText.StrBlanks, s));
    if |u| <= 4 then u else u[..4]
  }

  /** The number of positions below n at which the two codes hold the same
      letter, counted position by position. */
  function AgreeingBelow(s1: string, s2: string, n: nat): nat
    requires n <= |s1| && n <= |s2|
  {
    if n == 0 then 0 else AgreeingBelow(s1, s2, n - 1) + (if s1[n - 1] == s2[n - 1] then 1 else 0)
  }

  /** How many of the positions `zip` pairs up agree. */
  function Agreements(s1: string, s2: string): nat {
    AgreeingBelow(s1, s2, Min(|s1|, |s2|))
  }

  /** Counting from the front: the first position, then the rest of both codes. */
  lemma {:induction false} AgreeingBelowTail(s1: string, s2: string, n: nat)
    requires 0 < n <= |s1| && n <= |s2|
    ensures AgreeingBelow(s1, s2, n) == (if s1[0] == s2[0] then 1 else 0) + AgreeingBelow(s1[1..], s2[1..], n - 1)
  {
    if n > 1 {
      AgreeingBelowTail(s1, s2, n - 1);
    }
  }

  /** The loop over `zip(s1, s2)`: the merged letters and the number of agreeing
      positions. Where the codes disagree the dermatoscopy letter (s2) is kept,
      and where they agree the common letter is, so the merged code is s2 cut to
      the shorter length. */
  function MergeCodes(s1: string, s2: string): (r: (string, nat))
    ensures r.0 == s2[..Min(|s1|, |s2|)]
    ensures r.1 == Agreements(s1, s2)
    ensures r.1 <= Min(|s1|, |s2|)
  {
    if |s1| == 0 || |s2| == 0 then ("", 0)
    else
      var rest := MergeCodes(s1[1..], s2[1..]);
      AgreeingBelowTail(s1, s2, Min(|s1|, |s2|));
      assert s2[..Min(|s1|, |s2|)] == [s2[0]] + s2[1..][..Min(|s1| - 1, |s2| - 1)];
      if s1[0] == s2[0] then ([s1[0]] + rest.0, rest.1 + 1)
      else ([s2[0]] + rest.0, rest.1)
  }

  /** The count is the full length exactly when the codes agree everywhere. */
  lemma {:induction false} MergeCountFull(s1: string, s2: string)
    ensures MergeCodes(s1, s2).1 == Min(|s1|, |s2|) <==> s1[..Min(|s1|, |s2|)] == s2[..Min(|s1|, |s2|)]
  {
    if |s1| > 0 && |s2| > 0 {
      MergeCountFull(s1[1..], s2[1..]);
      assert s1[..Min(|s1|, |s2|)] == [s1[0]] + s1[1..][..Min(|s1| - 1, |s2| - 1)];
      assert s2[..Min(|s1|, |s2|)] == [s2[0]] + s2[1..][..Min(|s1| - 1, |s2| - 1)];
    }
  }

  /** The count is zero exactly when the codes disagree everywhere. */
  lemma {:induction false} MergeCountZero(s1: string, s2: string)
    ensures MergeCodes(s1, s2).1 == 0 <==> forall i :: 0 <= i < Min(|s1|, |s2|) ==> s1[i] != s2[i]
  {
    if |s1| > 0 && |s2| > 0 {
      MergeCountZero(s1[1..], s2[1..]);
      assert forall i :: 1 <= i < Min(|s1|, |s2|) ==> s1[i] == s1[1..][i - 1] && s2[i] == s2[1..][i - 1];
    }
  }

  /** `compare_skin_types(skin_code, skin_type_dermatoscopy)`. */
  function CompareSkinTypes(skinCode: string, dermatoscopy: string): (r: Comparison)
    ensures r.matchPercent <= 100
    ensures Normalize(skinCode) == [] ==> r == Comparison(0, Normalize(dermatoscopy))
    ensures Normalize(skinCode) != [] && Normalize(dermatoscopy) == [] ==> r == Comparison(0, Normalize(skinCode))
    ensures Normalize(skinCode) != [] && Normalize(dermatoscopy) != [] ==>
              var s1, s2 := Normalize(skinCode), Normalize(dermatoscopy);
              && r.matchPercent == 25 * Agreements(s1, s2)
              && r.finalSkinType == s2[..Min(|s1|, |s2|)]
  {
    var s1 := Normalize(skinCode);
    var s2 := Normalize(dermatoscopy);
    if s1 == [] then Comparison(0, s2)
    else if s2 == [] then Comparison(0, s1)
    else
      var merged := MergeCodes(s1, s2);
      Comparison(25 * merged.1, merged.0)
  }

  /** With both codes present the percentage is 25 times the compared length
      exactly when the codes agree up to the shorter length, and 0 exactly
      when no position agrees. */
  lemma MatchPercentBounds(skinCode: string, dermatoscopy: string)
    requires Normalize(skinCode) != [] && Normalize(dermatoscopy) != []
    ensures var s1, s2 := Normalize(skinCode), Normalize(dermatoscopy);
            var n := Min(|s1|, |s2|);
            var r := CompareSkinTypes(skinCode, dermatoscopy);
            && (r.matchPercent == 25 * n <==> s1[..n] == s2[..n])
            && (r.matchPercent == 0 <==> forall i :: 0 <= i < n ==> s1[i] != s2[i])
  {
    MergeCountFull(Normalize(skinCode), Normalize(dermatoscopy));
    MergeCountZero(Normalize(skinCode), Normalize(dermatoscopy));
  }

  /** A well-formed code: at most four Latin capitals. */
  predicate IsCode(s: string) {
    |s| <= 4 && forall i :: 0 <= i < |s| ==> PyText.IsCapital(s[i])
  }

  /** Normalising leaves a well-formed code as it is. */
  lemma NormalizeCode(s: string)
    requires IsCode(s)
    ensures Normalize(s) == s
  {
    assert PyText.NoSpace(s) by {
      forall i | 0 <= i < |s| ensures !PyText.IsSpace(s[i]) {
        assert PyText.IsCapital(s[i]);
      }
    }
    PyText.StripNoSpace(PyText.StrBlanks, s);
    PyText.UpperOfCapitals(s);
  }

  /** What normalising does to a typed code: white space around a code of Latin
      letters is dropped, small letters become capitals, and the first four
      letters are kept. */
  lemma NormalizePadded(pre: string, code: string, post: string)
    requires forall j :: 0 <= j < |pre| ==> PyText.IsSpace(pre[j])
    requires forall j :: 0 <= j < |post| ==> PyText.IsSpace(post[j])
    requires |code| > 0 && forall i :: 0 <= i < |code| ==> 'A' <= code[i] <= 'Z' || 'a' <= code[i] <= 'z'
    ensures var r := Normalize(pre + code + post);
            && |r| == Min(|code|, 4)
            && forall i :: 0 <= i < |r| ==>
                 r[i] == if 'a' <= code[i] <= 'z' then (code[i] as int - 32) as char else code[i]
  {
    assert !PyText.IsSpace(code[0]) && !PyText.IsSpace(code[|code| - 1]);
    PyText.StripPadded(PyText.StrBlanks, pre, code, post);
    NormalizeStripped(pre + code + post, code);
  }

  lemma NormalizeStripped(s: string, code: string)
    requires PyText.Strip(PyText.StrBlanks, s) == code
    requires forall i :: 0 <= i < |code| ==> 'A' <= code[i] <= 'Z' || 'a' <= code[i] <= 'z'
    ensures var r := Normalize(s);
            && |r| == Min(|code|, 4)
            && forall i :: 0 <= i < |r| ==>
                 r[i] == if 'a' <= code[i] <= 'z' then (code[i] as int - 32) as char else code[i]
  {
    PyText.UpperBasic(code);
  }

  /** Comparing a four-letter code of capital letters with itself gives the
      code back at 100%. */
  lemma CompareWithItself(code: string)
    requires IsCode(code) && |code| == 4
    ensures CompareSkinTypes(code, code) == Comparison(100, code)
  {
    NormalizeCode(code);
    AgreesWithItself(code, 4);
    assert code[..4] == code;
  }

  /** A code agrees with itself at every position. */
  lemma {:induction false} AgreesWithItself(s: string, n: nat)
    requires n <= |s|
    ensures AgreeingBelow(s, s, n) == n
  {
    if n > 0 {
      AgreesWithItself(s, n - 1);
    }
  }

  /** Wherever the two normalised codes disagree, the merged code carries the
      dermatoscopy letter and never the quiz letter. */
  lemma DermatoscopyWinsDisagreements(skinCode: string, dermatoscopy: string, i: nat)
    requires var s1, s2 := Normalize(skinCode), Normalize(dermatoscopy);
             i < |s1| && i < |s2| && s1[i] != s2[i]
    ensures var r := CompareSkinTypes(skinCode, dermatoscopy);
            i < |r.finalSkinType| && r.finalSkinType[i] == Normalize(dermatoscopy)[i] &&
            r.finalSkinType[i] != Normalize(skinCode)[i]
  {
  }

  /** On two non-empty well-formed codes the percentage is 25 per agreeing
      position and the final type is the dermatoscopy code cut to the shorter
      length. */
  lemma CompareCodes(s1: string, s2: string)
    requires IsCode(s1) && IsCode(s2) && |s1| > 0 && |s2| > 0
    ensures CompareSkinTypes(s1, s2) == Comparison(25 * Agreements(s1, s2), s2[..Min(|s1|, |s2|)])
  {
    NormalizeCode(s1);
    NormalizeCode(s2);
  }

  /** One step of the zip: the first position, then the rest. */
  lemma MergeStep(s1: string, s2: string)
    requires |s1| > 0 && |s2| > 0
    ensures MergeCodes(s1, s2).1 == MergeCodes(s1[1..], s2[1..]).1 + (if s1[0] == s2[0] then 1 else 0)
  {
  }

  /** Two four-letter codes that differ only in the last position agree at
      75%, and the merge is the dermatoscopy code. */
  lemma CompareLastMismatch(q: string, d: string)
    requires IsCode(q) && IsCode(d) && |q| == 4 && |d| == 4
    requires q[..3] == d[..3] && q[3] != d[3]
    ensures CompareSkinTypes(q, d) == Comparison(75, d)
  {
    CompareCodes(q, d);
    MatchesWhenLastDiffers(q, d);
    assert MergeCodes(q, d).0 == d[..4] == d;
  }

  lemma MatchesWhenLastDiffers(q: string, d: string)
    requires |q| == 4 && |d| == 4
    requires q[..3] == d[..3] && q[3] != d[3]
    ensures MergeCodes(q, d).1 == 3
  {
    MergeCountZero(q[3..], d[3..]);
    MergeStep(q[2..], d[2..]);
    assert q[2..][1..] == q[3..] && d[2..][1..] == d[3..];
    MergeStep(q[1..], d[1..]);
    assert q[1..][1..] == q[2..] && d[1..][1..] == d[2..];
    MergeStep(q, d);
    assert q[0] == d[0] && q[1] == d[1] && q[2] == d[2];
  }

  /** "OSPW" against "OSPT": three of four positions agree, and the last letter
      comes from the dermatoscopy code. */
  lemma CompareExample(q: string, d: string)
    requires q == "OSPW" && d == "OSPT"
    ensures CompareSkinTypes(q, d) == Comparison(75, d)
  {
    CompareLastMismatch(q, d);
  }

  /** A quiz code shorter than the dermatoscopy code cuts the merged code short:
      "OS" against "OSPT" gives "OS" at 50%. */
  lemma ShortQuizCodeTruncatesMerge(q: string, d: string)
    requires q == "OS" && d == "OSPT"
    ensures CompareSkinTypes(q, d) == Comparison(50, q)
  {
    assert IsCode(q) && IsCode(d);
    CompareCodes(q, d);
    assert Agreements(q, d) == 2 by {
      assert q[0] == d[0] && q[1] == d[1];
      assert AgreeingBelow(q, d, 1) == 1;
    }
    assert d[..2] == q;
  }

  // ----- the table -----

  /** The linear scan `for row in rows: if row["id_patient"] == id_patient`
      from position i on. */
  function FindFrom(t: Table, id: string, i: nat): (r: Option<nat>)
    requires i <= |t|
    ensures r.Some? ==> i <= r.value < |t| && t[r.value].idPatient == id
    ensures r.Some? ==> forall j :: i <= j < r.value ==> t[j].idPatient != id
    ensures r.None? <==> forall j :: i <= j < |t| ==> t[j].idPatient != id
    decreases |t| - i
  {
    if i == |t| then None
    else if t[i].idPatient == id then Some(i)
    else FindFrom(t, id, i + 1)
  }

  /** The index of the first row with the id, if any. */
  function FindRow(t: Table, id: string): (r: Option<nat>)
    ensures r.Some? ==> r.value < |t| && t[r.value].idPatient == id
    ensures r.Some? ==> forall j :: 0 <= j < r.value ==> t[j].idPatient != id
    ensures r.None? <==> forall j :: 0 <= j < |t| ==> t[j].idPatient != id
  {
    FindFrom(t, id, 0)
  }

  /** The row `save_initial_data` appends. */
  function InitialRow(id: string, age: int, sex: string, allergies: string): Row {
    Row(id, Some(age), sex, allergies, "", "", "", None, "", "")
  }

  /** `save_initial_data`: appends a row with the demographics and six empty
      cells; the store does not look for an existing row with the same id. */
  function SaveInitialData(t: Table, id: string, age: int, sex: string, allergies: string): (r: Table)
    ensures |r| == |t| + 1 && r[..|t|] == t
    ensures r[|t|].idPatient == id && r[|t|].age == Some(age) && r[|t|].sex == sex && r[|t|].allergies == allergies
    ensures r[|t|].answersJson == "" && r[|t|].skinCode == "" && r[|t|].skinTypeDermatoscopy == ""
    ensures r[|t|].matchPercent == None && r[|t|].finalSkinType == "" && r[|t|].timeOfYear == ""
  {
    t + [InitialRow(id, age, sex, allergies)]
  }

  /** `save_test_results`: on the first row with the id, sets the answers and the
      code, and the season only when one is given; with no such row, appends a
      row with empty demographics instead of failing. */
  function SaveTestResults(t: Table, id: string, answersJson: string, skinCode: string, timeOfYear: string): (r: Table)
    ensures FindRow(t, id).Some? ==>
              var k := FindRow(t, id).value;
              && |r| == |t|
              && (forall j :: 0 <= j < |t| && j != k ==> r[j] == t[j])
              && r[k] == t[k].(answersJson := answersJson, skinCode := skinCode,
                               timeOfYear := if timeOfYear != "" then timeOfYear else t[k].timeOfYear)
    ensures FindRow(t, id).None? ==>
              r == t + [Row(id, None, "", "", answersJson, skinCode, "", None, "", timeOfYear)]
  {
    match FindRow(t, id)
    case Some(k) =>
      var row := t[k];
      t[k := row.(answersJson := answersJson, skinCode := skinCode,
                  timeOfYear := if timeOfYear != "" then timeOfYear else row.timeOfYear)]
    case None =>
      t + [Row(id, None, "", "", answersJson, skinCode, "", None, "", timeOfYear)]
  }

  /** `save_dermatoscopy_result`: on the first row with the id, stores the
      dermatoscopy code and the comparison of the `skinCode` argument with it;
      with no such row, appends a row whose comparison is made against an empty
      quiz code. Returns the new table and the comparison it stored. */
  function SaveDermatoscopyResult(t: Table, id: string, skinCode: string, dermatoscopy: string): (r: (Table, Comparison))
    ensures FindRow(t, id).Some? ==>
              var k := FindRow(t, id).value;
              && r.1 == CompareSkinTypes(skinCode, dermatoscopy)
              && |r.0| == |t|
              && (forall j :: 0 <= j < |t| && j != k ==> r.0[j] == t[j])
              && r.0[k] == t[k].(skinTypeDermatoscopy := dermatoscopy, matchPercent := Some(r.1.matchPercent),
                                 finalSkinType := r.1.finalSkinType)
    ensures FindRow(t, id).None? ==>
              && r.1 == Comparison(0, Normalize(dermatoscopy))
              && r.0 == t + [Row(id, None, "", "", "", "", dermatoscopy, Some(0), Normalize(dermatoscopy), "")]
  {
    match FindRow(t, id)
    case Some(k) =>
      var cmp := CompareSkinTypes(skinCode, dermatoscopy);
      (t[k := t[k].(skinTypeDermatoscopy := dermatoscopy, matchPercent := Some(cmp.matchPercent),
                    finalSkinType := cmp.finalSkinType)], cmp)
    case None =>
      var cmp := CompareSkinTypes("", dermatoscopy);
      (t + [Row(id, None, "", "", "", "", dermatoscopy, Some(cmp.matchPercent), cmp.finalSkinType, "")], cmp)
  }

  /** The JSON object `get_patient_json` hands on: exactly these five columns. */
  datatype Projection = Projection(age: Option<int>, sex: string, allergies: string, finalSkinType: string, timeOfYear: string)

  function Project(row: Row): Projection {
    Projection(row.age, row.sex, row.allergies, row.finalSkinType, row.timeOfYear)
  }

  /** `get_patient_json`: the projection of the first row with the id; None
      stands for the "{}" returned when there is none. */
  function GetPatientJson(t: Table, id: string): (r: Option<Projection>)
    ensures r.None? <==> forall j :: 0 <= j < |t| ==> t[j].idPatient != id
    ensures r.Some? ==> exists k :: 0 <= k < |t| && t[k].idPatient == id && r.value == Project(t[k])
                                    && forall j :: 0 <= j < k ==> t[j].idPatient != id
  {
    match FindRow(t, id)
    case Some(k) => Some(Project(t[k]))
    case None => None
  }

  // ----- properties of the store -----

  /** At most one row per id. */
  predicate UniqueIds(t: Table) {
    forall i, j :: 0 <= i < j < |t| ==> t[i].idPatient != t[j].idPatient
  }

  /** A freshly created record reads back as its demographics with every result
      field empty. */
  lemma LookupAfterCreate(t: Table, id: string, age: int, sex: string, allergies: string)
    requires forall j :: 0 <= j < |t| ==> t[j].idPatient != id
    ensures GetPatientJson(SaveInitialData(t, id, age, sex, allergies), id) == Some(Projection(Some(age), sex, allergies, "", ""))
  {
    var r := SaveInitialData(t, id, age, sex, allergies);
    assert FindRow(r, id) == Some(|t|);
  }

  /** Creating a record under a fresh id keeps ids unique; upserts always do. */
  lemma UniqueIdsPreserved(t: Table, id: string, age: int, sex: string, allergies: string,
                           answersJson: string, skinCode: string, timeOfYear: string, dermatoscopy: string)
    requires UniqueIds(t)
    ensures (forall j :: 0 <= j < |t| ==> t[j].idPatient != id) ==> UniqueIds(SaveInitialData(t, id, age, sex, allergies))
    ensures UniqueIds(SaveTestResults(t, id, answersJson, skinCode, timeOfYear))
    ensures UniqueIds(SaveDermatoscopyResult(t, id, skinCode, dermatoscopy).0)
  {
    if forall j :: 0 <= j < |t| ==> t[j].idPatient != id {
      AppendOnlyRowsOf(t, InitialRow(id, age, sex, allergies), id);
      UniqueIdsOfOnlyRowsOf(t, SaveInitialData(t, id, age, sex, allergies), id);
    }
    TestResultsOnlyRowsOf(t, id, answersJson, skinCode, timeOfYear);
    UniqueIdsOfOnlyRowsOf(t, SaveTestResults(t, id, answersJson, skinCode, timeOfYear), id);
    DermatoscopyOnlyRowsOf(t, id, skinCode, dermatoscopy);
    UniqueIdsOfOnlyRowsOf(t, SaveDermatoscopyResult(t, id, skinCode, dermatoscopy).0, id);
  }

  /** A write confined to the rows of id keeps ids unique when it appends at
      most one row, and only for an id the table did not have. */
  lemma UniqueIdsOfOnlyRowsOf(t: Table, u: Table, id: string)
    requires UniqueIds(t) && OnlyRowsOf(t, u, id) && |u| <= |t| + 1
    requires |u| > |t| ==> forall j :: 0 <= j < |t| ==> t[j].idPatient != id
    ensures UniqueIds(u)
  {
    forall i, j | 0 <= i < j < |u| ensures u[i].idPatient != u[j].idPatient {
      if j < |t| {
        assert u[i].idPatient == t[i].idPatient && u[j].idPatient == t[j].idPatient;
      } else {
        assert u[i].idPatient == t[i].idPatient;
      }
    }
  }

  /** u is t with only rows of id changed, in place or appended: what each of
      the three writers does to the table. */
  predicate OnlyRowsOf(t: Table, u: Table, id: string) {
    && |u| >= |t|
    && (forall j :: 0 <= j < |t| ==> t[j].idPatient == u[j].idPatient && (t[j].idPatient != id ==> u[j] == t[j]))
    && (forall j :: |t| <= j < |u| ==> u[j].idPatient == id)
  }

  /** A quiz save for one id leaves the record of every other id as it was. */
  lemma TestResultsFrame(t: Table, id: string, other: string, answersJson: string, skinCode: string, timeOfYear: string)
    requires other != id
    ensures GetPatientJson(SaveTestResults(t, id, answersJson, skinCode, timeOfYear), other) == GetPatientJson(t, other)
  {
    TestResultsOnlyRowsOf(t, id, answersJson, skinCode, timeOfYear);
    LookupFrame(t, id, other, SaveTestResults(t, id, answersJson, skinCode, timeOfYear));
  }

  /** A dermatoscopy save for one id leaves the record of every other id as it was. */
  lemma DermatoscopyFrame(t: Table, id: string, other: string, skinCode: string, dermatoscopy: string)
    requires other != id
    ensures GetPatientJson(SaveDermatoscopyResult(t, id, skinCode, dermatoscopy).0, other) == GetPatientJson(t, other)
  {
    DermatoscopyOnlyRowsOf(t, id, skinCode, dermatoscopy);
    LookupFrame(t, id, other, SaveDermatoscopyResult(t, id, skinCode, dermatoscopy).0);
  }

  lemma TestResultsOnlyRowsOf(t: Table, id: string, answersJson: string, skinCode: string, timeOfYear: string)
    ensures OnlyRowsOf(t, SaveTestResults(t, id, answersJson, skinCode, timeOfYear), id)
    ensures |SaveTestResults(t, id, answersJson, skinCode, timeOfYear)| > |t| ==> FindRow(t, id).None?
  {
    var u := SaveTestResults(t, id, answersJson, skinCode, timeOfYear);
    match FindRow(t, id)
    case Some(k) =>
      var row := t[k].(answersJson := answersJson, skinCode := skinCode,
                       timeOfYear := if timeOfYear != "" then timeOfYear else t[k].timeOfYear);
      assert u == t[k := row];
      UpdateOnlyRowsOf(t, k, row, id);
    case None =>
      AppendOnlyRowsOf(t, Row(id, None, "", "", answersJson, skinCode, "", None, "", timeOfYear), id);
  }

  lemma DermatoscopyOnlyRowsOf(t: Table, id: string, skinCode: string, dermatoscopy: string)
    ensures OnlyRowsOf(t, SaveDermatoscopyResult(t, id, skinCode, dermatoscopy).0, id)
    ensures |SaveDermatoscopyResult(t, id, skinCode, dermatoscopy).0| > |t| ==> FindRow(t, id).None?
  {
    var u := SaveDermatoscopyResult(t, id, skinCode, dermatoscopy).0;
    match FindRow(t, id)
    case Some(k) =>
      var cmp := CompareSkinTypes(skinCode, dermatoscopy);
      var row := t[k].(skinTypeDermatoscopy := dermatoscopy, matchPercent := Some(cmp.matchPercent),
                       finalSkinType := cmp.finalSkinType);
      assert u == t[k := row];
      UpdateOnlyRowsOf(t, k, row, id);
    case None =>
      AppendOnlyRowsOf(t, Row(id, None, "", "", "", "", dermatoscopy, Some(0), Normalize(dermatoscopy), ""), id);
  }

  /** Overwriting a row of id with another row of id changes only rows of id. */
  lemma UpdateOnlyRowsOf(t: Table, k: nat, row: Row, id: string)
    requires k < |t| && t[k].idPatient == id && row.idPatient == id
    ensures OnlyRowsOf(t, t[k := row], id)
  {
  }

  /** Appending a row of id changes only rows of id. */
  lemma AppendOnlyRowsOf(t: Table, row: Row, id: string)
    requires row.idPatient == id
    ensures OnlyRowsOf(t, t + [row], id)
  {
  }

  /** Creating a record for one id leaves the lookup of every other id as it was. */
  lemma CreateFrame(t: Table, id: string, other: string, age: int, sex: string, allergies: string)
    requires other != id
    ensures GetPatientJson(SaveInitialData(t, id, age, sex, allergies), other) == GetPatientJson(t, other)
  {
    var u := SaveInitialData(t, id, age, sex, allergies);
    assert OnlyRowsOf(t, u, id);
    LookupFrame(t, id, other, u);
  }

  /** A write confined to the rows of id leaves the lookup of any other id as it was. */
  lemma LookupFrame(t: Table, id: string, other: string, u: Table)
    requires other != id && OnlyRowsOf(t, u, id)
    ensures GetPatientJson(u, other) == GetPatientJson(t, other)
  {
    FindRowFrame(t, id, other, u);
  }

  /** If u differs from t only in rows of id or in rows appended for id, the
      first row of any other id is the same in both. */
  lemma FindRowFrame(t: Table, id: string, other: string, u: Table)
    requires other != id && OnlyRowsOf(t, u, id)
    ensures FindRow(u, other) == FindRow(t, other)
    ensures FindRow(t, other).Some? ==> u[FindRow(t, other).value] == t[FindRow(t, other).value]
  {
    match FindRow(t, other)
    case Some(k) =>
      assert u[k].idPatient == other;
      assert FindRow(u, other).Some? && FindRow(u, other).value <= k;
    case None =>
      assert forall j :: 0 <= j < |u| ==> u[j].idPatient != other by {
        forall j | 0 <= j < |u| ensures u[j].idPatient != other {
          if j < |t| { assert u[j].idPatient == t[j].idPatient; }
        }
      }
  }

  /** Two quiz saves for the same id never add a second row, and the record
      then shows the later values. */
  lemma LatestTestResultWins(t: Table, id: string, a1: string, c1: string, y1: string, a2: string, c2: string, y2: string)
    ensures var once := SaveTestResults(t, id, a1, c1, y1);
            var twice := SaveTestResults(once, id, a2, c2, y2);
            && |twice| == |once|
            && FindRow(twice, id).Some?
            && twice[FindRow(twice, id).value].answersJson == a2
            && twice[FindRow(twice, id).value].skinCode == c2
            && twice[FindRow(twice, id).value].timeOfYear == (if y2 != "" then y2 else once[FindRow(once, id).value].timeOfYear)
  {
    var once := SaveTestResults(t, id, a1, c1, y1);
    if FindRow(t, id).None? {
      assert once[|t|].idPatient == id;
    } else {
      assert once[FindRow(t, id).value].idPatient == id;
    }
  }

  /** The comparison `save_dermatoscopy_result` returns is the one it stored,
      and a lookup shows its merged code. */
  lemma DermatoscopyReturnsWhatItStored(t: Table, id: string, skinCode: string, dermatoscopy: string)
    ensures var (u, cmp) := SaveDermatoscopyResult(t, id, skinCode, dermatoscopy);
            && FindRow(u, id).Some?
            && u[FindRow(u, id).value].matchPercent == Some(cmp.matchPercent)
            && u[FindRow(u, id).value].finalSkinType == cmp.finalSkinType
            && GetPatientJson(u, id).value.finalSkinType == cmp.finalSkinType
  {
    var u := SaveDermatoscopyResult(t, id, skinCode, dermatoscopy).0;
    if FindRow(t, id).None? {
      UpsertAppendedRowIsFound(t, id, u);
    } else {
      UpsertUpdatedRowIsFound(t, id, u);
    }
  }

  /** When t has no row for id and u is t plus a row for id, that row is found. */
  lemma UpsertAppendedRowIsFound(t: Table, id: string, u: Table)
    requires FindRow(t, id).None?
    requires |u| == |t| + 1 && u[..|t|] == t && u[|t|].idPatient == id
    ensures FindRow(u, id) == Some(|t|)
  {
    assert FindRow(u, id).Some?;
  }

  /** When u changes only non-key fields of t, the first row for id stays put. */
  lemma UpsertUpdatedRowIsFound(t: Table, id: string, u: Table)
    requires |u| == |t|
    requires forall j :: 0 <= j < |t| ==> u[j].idPatient == t[j].idPatient
    ensures FindRow(u, id) == FindRow(t, id)
  {
    if FindRow(t, id).Some? {
      var k := FindRow(t, id).value;
      assert u[k].idPatient == id;
    } else {
      assert forall j :: 0 <= j < |u| ==> u[j].idPatient != id;
    }
  }
}
