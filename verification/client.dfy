/** The pure parts of the single-page client: turning the section editors
    into sections, parsing the tag field, the tab filter's query string,
    the draft counter, the quiz check, and the session flags the controller
    keeps (`token`, `currentUser`, `editingTutorialId`, `isCreating`). DOM
    inputs are plain strings. */
module Client {
  import opened Common
  import opened Text
  import opened Crypto
  import opened Model
  import opened Db
  import opened Http
  import OwnedTutorials
  import Server

  // ---------------------------------------------------------------------
  // Section editors

  /** One `.section-editor` as the user left it. `radioGroup` is the `i` of
      its radios' `name="q${i}_correct"`, fixed when the editors were
      rendered; `checked` is the value of its checked radio, i.e. the
      position of the chosen option input. */
  datatype SectionEditor = SectionEditor(
    radioGroup: nat,
    title: string,
    content: string,
    question: string,
    optionInputs: seq<string>,
    checked: Option<nat>)

  /** `.filter(Boolean)` on strings: the non-empty ones, in order. */
  function NonEmpty(xs: seq<string>): (r: seq<string>)
    ensures |r| == CountNonEmpty(xs) <= |xs|
    ensures forall i :: 0 <= i < |r| ==> r[i] != ""
  {
    if |xs| == 0 then []
    else (if xs[0] != "" then [xs[0]] else []) + NonEmpty(xs[1..])
  }

  /** How many of `xs` are non-empty. */
  function CountNonEmpty(xs: seq<string>): nat
  {
    if |xs| == 0 then 0 else (if xs[0] != "" then 1 else 0) + CountNonEmpty(xs[1..])
  }

  /** A non-empty input at position `k` sits, after `.filter(Boolean)`, at
      the position given by the number of non-empty inputs before it. */
  lemma {:induction false} ChosenOptionSurvivesFilter(xs: seq<string>, k: nat)
    requires k < |xs| && xs[k] != ""
    ensures CountNonEmpty(xs[..k]) < |NonEmpty(xs)|
    ensures NonEmpty(xs)[CountNonEmpty(xs[..k])] == xs[k]
  {
    if k == 0 {
      assert xs[..0] == [];
    } else {
      ChosenOptionSurvivesFilter(xs[1..], k - 1);
      assert xs[..k][1..] == xs[1..][..k - 1];
      assert xs[..k][0] == xs[0];
    }
  }

  /** The test `if (title && content)` an editor must pass to be sent. */
  predicate IsFilled(e: SectionEditor) {
    e.title != "" && e.content != ""
  }

  /** The positions, from `pos` on, of the editors `collectSectionsData`
      sends: exactly the filled ones, in ascending order. */
  function FilledPositions(editors: seq<SectionEditor>, pos: nat): (ps: seq<nat>)
    requires pos <= |editors|
    ensures forall k :: 0 <= k < |ps| ==> pos <= ps[k] < |editors| && IsFilled(editors[ps[k]])
    ensures forall k, l :: 0 <= k < l < |ps| ==> ps[k] < ps[l]
    ensures forall i :: pos <= i < |editors| && IsFilled(editors[i]) ==> i in ps
    decreases |editors| - pos
  {
    if pos == |editors| then []
    else (if IsFilled(editors[pos]) then [pos] else []) + FilledPositions(editors, pos + 1)
  }

  /** One section as `collectSectionsData` builds it for the editor at
      position `pos`: the radio is looked up under the name
      `q${pos}_correct`, and `correct` is the raw radio value. */
  function SectionAsWritten(e: SectionEditor, pos: nat): (s: Section)
    ensures s.title == e.title && s.content == e.content
    ensures |s.quiz| <= 1
    ensures |s.quiz| == 1 <==>
      e.question != "" && |NonEmpty(e.optionInputs)| >= 2 && e.radioGroup == pos && e.checked.Some?
    ensures |s.quiz| == 1 ==>
      s.quiz[0] == QuizItem(e.question, NonEmpty(e.optionInputs), e.checked.value)
  {
    var options := NonEmpty(e.optionInputs);
    var correct: int := if e.radioGroup == pos && e.checked.Some? then e.checked.value else -1;
    var quiz := if e.question != "" && |options| >= 2 && correct >= 0
                then [QuizItem(e.question, options, correct)] else [];
    Section(e.title, e.content, quiz)
  }

  /** `collectSectionsData()` as written, over the editors from position
      `pos` on: the `k`-th filled editor's section, built with its position. */
  function CollectAsWrittenFrom(editors: seq<SectionEditor>, pos: nat): (r: seq<Section>)
    requires pos <= |editors|
    ensures |r| == |FilledPositions(editors, pos)|
    ensures forall k :: 0 <= k < |r| ==>
      r[k] == SectionAsWritten(editors[FilledPositions(editors, pos)[k]], FilledPositions(editors, pos)[k])
    decreases |editors| - pos
  {
    if pos == |editors| then []
    else
      var rest := CollectAsWrittenFrom(editors, pos + 1);
      (if IsFilled(editors[pos]) then [SectionAsWritten(editors[pos], pos)] else []) + rest
  }

  /** `collectSectionsData()` as written: for each filled editor, in editor
      order, the section built with the radio group named by its current
      position. */
  function CollectSectionsAsWritten(editors: seq<SectionEditor>): (r: seq<Section>)
    ensures |r| == |FilledPositions(editors, 0)|
    ensures forall k :: 0 <= k < |r| ==>
      r[k] == SectionAsWritten(editors[FilledPositions(editors, 0)[k]], FilledPositions(editors, 0)[k])
    ensures forall k :: 0 <= k < |r| ==> r[k].title != "" && r[k].content != ""
  {
    CollectAsWrittenFrom(editors, 0)
  }

  /** The section an editor stands for: its own radio group is read, and
      `correct` is the chosen option's place among the non-empty options;
      a radio next to an empty input counts as no choice. */
  function SectionFromEditor(e: SectionEditor): (s: Section)
    ensures s.title == e.title && s.content == e.content
    ensures |s.quiz| <= 1
    ensures |s.quiz| == 1 <==>
      && e.question != "" && |NonEmpty(e.optionInputs)| >= 2
      && e.checked.Some? && e.checked.value < |e.optionInputs| && e.optionInputs[e.checked.value] != ""
    ensures |s.quiz| == 1 ==>
      && s.quiz[0].question == e.question
      && s.quiz[0].options == NonEmpty(e.optionInputs)
      && 0 <= s.quiz[0].correct < |s.quiz[0].options|
      && s.quiz[0].options[s.quiz[0].correct] == e.optionInputs[e.checked.value]
  {
    var options := NonEmpty(e.optionInputs);
    if e.question != "" && |options| >= 2 && e.checked.Some?
       && e.checked.value < |e.optionInputs| && e.optionInputs[e.checked.value] != "" then
      var c := e.checked.value;
      ChosenOptionSurvivesFilter(e.optionInputs, c);
      Section(e.title, e.content, [QuizItem(e.question, options, CountNonEmpty(e.optionInputs[..c]))])
    else Section(e.title, e.content, [])
  }

  /** The corrected collection over the editors from position `pos` on. */
  function CollectFrom(editors: seq<SectionEditor>, pos: nat): (r: seq<Section>)
    requires pos <= |editors|
    ensures |r| == |FilledPositions(editors, pos)|
    ensures forall k :: 0 <= k < |r| ==> r[k] == SectionFromEditor(editors[FilledPositions(editors, pos)[k]])
    decreases |editors| - pos
  {
    if pos == |editors| then []
    else
      var rest := CollectFrom(editors, pos + 1);
      (if IsFilled(editors[pos]) then [SectionFromEditor(editors[pos])] else []) + rest
  }

  /** The section list the form should send: each filled editor's section, in order. */
  function CollectSections(editors: seq<SectionEditor>): (r: seq<Section>)
    ensures |r| == |FilledPositions(editors, 0)|
    ensures forall k :: 0 <= k < |r| ==> r[k] == SectionFromEditor(editors[FilledPositions(editors, 0)[k]])
  {
    CollectFrom(editors, 0)
  }

  /** Every quiz the corrected collection builds marks, as correct, the very
      option text the author chose. */
  lemma CollectedQuizMarksChosenOption(editors: seq<SectionEditor>, k: nat)
    requires k < |CollectSections(editors)| && |CollectSections(editors)[k].quiz| == 1
    ensures var e := editors[FilledPositions(editors, 0)[k]]; var q := CollectSections(editors)[k].quiz[0];
      && e.checked.Some? && e.checked.value < |e.optionInputs|
      && 0 <= q.correct < |q.options| && q.options[q.correct] == e.optionInputs[e.checked.value]
  {
  }

  // Two editors after the user removed the middle one of three: the
  // second one left still carries the radios named `q2_correct`.
  const EditorsAfterRemoval := [
    SectionEditor(0, "Intro", "Some text", "", ["", "", ""], None),
    SectionEditor(2, "Loops", "Loop body", "Which loop?", ["for", "while", "do"], Some(0))]

  lemma BothEditorsFilled()
    ensures FilledPositions(EditorsAfterRemoval, 0) == [0, 1]
  {
    var e := EditorsAfterRemoval;
    assert IsFilled(e[0]) && IsFilled(e[1]);
    assert FilledPositions(e, 2) == [];
    assert FilledPositions(e, 1) == [1] + FilledPositions(e, 2);
    assert FilledPositions(e, 0) == [0] + FilledPositions(e, 1);
  }

  /** Finding: after a section was removed, the quiz of every later section
      is dropped, because its radios are looked up under the editor's
      current position rather than the name they were rendered with. */
  lemma AsWrittenDropsQuizAfterRemoval()
    ensures CollectSectionsAsWritten(EditorsAfterRemoval)[1].quiz == []
    ensures CollectSections(EditorsAfterRemoval)[1].quiz == [QuizItem("Which loop?", ["for", "while", "do"], 0)]
  {
    var e := EditorsAfterRemoval;
    BothEditorsFilled();
    assert CollectSectionsAsWritten(e)[1] == SectionAsWritten(e[1], 1);
    assert CollectSections(e)[1] == SectionFromEditor(e[1]);
    assert NonEmpty(["for", "while", "do"]) == ["for", "while", "do"] by {
      assert ["for", "while", "do"][1..] == ["while", "do"];
      assert ["while", "do"][1..] == ["do"];
      assert ["do"][1..] == [];
    }
    assert CountNonEmpty(e[1].optionInputs[..0]) == 0 by { assert e[1].optionInputs[..0] == []; }
  }

  // One editor whose first option input was left empty and whose author
  // chose the second input, "A".
  const EditorWithGap := SectionEditor(0, "Types", "About types", "Pick A", ["", "A", "B"], Some(1))

  /** Finding: `correct` is the position among all three inputs, but the
      options are stored after empty ones are filtered out, so the stored
      quiz marks "B" where the author chose "A". */
  lemma AsWrittenMisplacesCorrectAnswer()
    ensures var q := SectionAsWritten(EditorWithGap, 0).quiz[0]; q.options[q.correct] == "B"
    ensures var q := SectionFromEditor(EditorWithGap).quiz[0]; q.options[q.correct] == "A"
  {
    var xs := ["", "A", "B"];
    assert NonEmpty(xs) == ["A", "B"] by {
      assert xs[1..] == ["A", "B"];
      assert xs[1..][1..] == ["B"];
      assert xs[1..][1..][1..] == [];
    }
  }

  // ---------------------------------------------------------------------
  // Tags

  /** `.map(t => t.trim())`. */
  function TrimAll(xs: seq<string>): (r: seq<string>)
    ensures |r| == |xs|
    ensures forall i :: 0 <= i < |r| ==> r[i] == Trim(xs[i])
  {
    if |xs| == 0 then [] else [Trim(xs[0])] + TrimAll(xs[1..])
  }

  /** Trimming a prefix of the pieces gives the prefix of the trimmed pieces. */
  lemma TrimAllPrefix(xs: seq<string>, k: nat)
    requires k <= |xs|
    ensures TrimAll(xs[..k]) == TrimAll(xs)[..k]
  {
  }

  /** A tag list the form can hold: non-empty, trimmed tags without commas. */
  predicate WellFormedTags(tags: seq<string>) {
    forall i :: 0 <= i < |tags| ==> tags[i] != "" && Trimmed(tags[i]) && ',' !in tags[i]
  }

  /** How many of the first `k` comma-separated pieces become tags: those
      that do not trim to the empty string. */
  function TagsBefore(pieces: seq<string>, k: nat): nat
    requires k <= |pieces|
  {
    CountNonEmpty(TrimAll(pieces[..k]))
  }

  /** The tag field as `saveTutorial` sends it:
      `value.split(',').map(t => t.trim()).filter(Boolean)`. As many tags
      as there are non-blank comma-separated pieces, and each such piece
      sent trimmed at its rank among them, so nothing else is sent. */
  function ParseTags(input: string): (tags: seq<string>)
    ensures WellFormedTags(tags)
    ensures |tags| == TagsBefore(Split(input, ','), |Split(input, ',')|)
    ensures var pieces := Split(input, ',');
      forall k :: 0 <= k < |pieces| && Trim(pieces[k]) != "" ==>
        TagsBefore(pieces, k) < |tags| && tags[TagsBefore(pieces, k)] == Trim(pieces[k])
  {
    var trimmed := TrimAll(Split(input, ','));
    TrimmedPiecesHaveNoComma(input);
    NonEmptyKeeps(trimmed);
    PieceRanks(Split(input, ','));
    NonEmpty(trimmed)
  }

  /** Ranks of the pieces among the non-blank ones, for any list of pieces. */
  lemma PieceRanks(pieces: seq<string>)
    ensures |NonEmpty(TrimAll(pieces))| == TagsBefore(pieces, |pieces|)
    ensures var tags := NonEmpty(TrimAll(pieces));
      forall k :: 0 <= k < |pieces| && Trim(pieces[k]) != "" ==>
        TagsBefore(pieces, k) < |tags| && tags[TagsBefore(pieces, k)] == Trim(pieces[k])
  {
    var trimmed := TrimAll(pieces);
    assert pieces[..|pieces|] == pieces;
    forall k | 0 <= k < |pieces| && Trim(pieces[k]) != ""
      ensures TagsBefore(pieces, k) < |NonEmpty(trimmed)| && NonEmpty(trimmed)[TagsBefore(pieces, k)] == Trim(pieces[k])
    {
      TrimAllPrefix(pieces, k);
      ChosenOptionSurvivesFilter(trimmed, k);
    }
  }

  /** Trimmed pieces without commas: what `.filter(Boolean)` turns into a tag list. */
  predicate CleanPieces(xs: seq<string>) {
    forall i :: 0 <= i < |xs| ==> Trimmed(xs[i]) && ',' !in xs[i]
  }

  lemma {:induction false} TrimAllClean(xs: seq<string>)
    requires forall i :: 0 <= i < |xs| ==> ',' !in xs[i]
    ensures CleanPieces(TrimAll(xs))
  {
    if |xs| > 0 {
      assert forall i :: 0 <= i < |xs| - 1 ==> xs[1..][i] == xs[i + 1];
      TrimAllClean(xs[1..]);
      TrimKeepsAbsent(xs[0], ',');
      var r := TrimAll(xs);
      assert r == [Trim(xs[0])] + TrimAll(xs[1..]);
      forall i | 0 <= i < |r| ensures Trimmed(r[i]) && ',' !in r[i] {
        if i > 0 { assert r[i] == TrimAll(xs[1..])[i - 1]; }
      }
    }
  }

  lemma TrimmedPiecesHaveNoComma(input: string)
    ensures CleanPieces(TrimAll(Split(input, ',')))
  {
    TrimAllClean(Split(input, ','));
  }

  /** What `.filter(Boolean)` keeps it keeps whole: properties every element
      has carry over to the result. */
  lemma {:induction false} NonEmptyKeeps(xs: seq<string>)
    requires CleanPieces(xs)
    ensures WellFormedTags(NonEmpty(xs))
  {
    if |xs| > 0 {
      NonEmptyKeeps(xs[1..]);
      var head := if xs[0] != "" then [xs[0]] else [];
      assert NonEmpty(xs) == head + NonEmpty(xs[1..]);
      forall i | 0 <= i < |NonEmpty(xs)| ensures Trimmed(NonEmpty(xs)[i]) && ',' !in NonEmpty(xs)[i] {
        if i < |head| { } else { assert NonEmpty(xs)[i] == NonEmpty(xs[1..])[i - |head|]; }
      }
    }
  }

  lemma PaddedTagHasNoComma(sp: string, t: string)
    requires AllSpace(sp) && ',' !in t
    ensures ',' !in sp + t
  {
    var first := sp + t;
    forall k | 0 <= k < |first| ensures first[k] != ',' {
      if k < |sp| { assert first[k] == sp[k] && IsJsSpace(sp[k]); } else { assert first[k] == t[k - |sp|]; }
    }
  }

  /** A piece that trims to a non-empty tag contributes exactly that tag. */
  lemma ParseConsPiece(first: string, tail: seq<string>, t: string)
    requires Trim(first) == t && t != ""
    ensures NonEmpty(TrimAll([first] + tail)) == [t] + NonEmpty(TrimAll(tail))
  {
    var pieces := [first] + tail;
    assert pieces[1..] == tail;
    var trimmed := TrimAll(pieces);
    assert trimmed == [t] + TrimAll(tail);
    assert trimmed[1..] == TrimAll(tail);
  }

  lemma JoinCons(sp: string, tags: seq<string>)
    requires |tags| >= 2
    ensures sp + Join(tags, ", ") == (sp + tags[0]) + [','] + (" " + Join(tags[1..], ", "))
  {
  }

  lemma WellFormedTail(tags: seq<string>)
    requires |tags| >= 1 && WellFormedTags(tags)
    ensures WellFormedTags(tags[1..])
    ensures tags[0] != "" && Trimmed(tags[0]) && ',' !in tags[0]
  {
    forall i | 0 <= i < |tags| - 1 ensures tags[1..][i] == tags[i + 1] { }
  }

  /** The pieces `split(',')` cuts from `sp` followed by the tags joined
      with `', '`: the first tag behind `sp`, every later one behind a space. */
  function Padded(sp: string, tags: seq<string>): seq<string>
    decreases |tags|
  {
    if |tags| == 0 then [] else [sp + tags[0]] + Padded(" ", tags[1..])
  }

  lemma {:induction false} SplitPaddedJoin(sp: string, tags: seq<string>)
    requires |tags| >= 1 && WellFormedTags(tags) && AllSpace(sp)
    ensures Split(sp + Join(tags, ", "), ',') == Padded(sp, tags)
    decreases |tags|
  {
    WellFormedTail(tags);
    PaddedTagHasNoComma(sp, tags[0]);
    if |tags| == 1 {
      assert sp + Join(tags, ", ") == sp + tags[0];
      SplitWithoutSeparator(sp + tags[0], ',');
      assert Padded(" ", tags[1..]) == [];
    } else {
      var rest := tags[1..];
      JoinCons(sp, tags);
      SplitAtSeparator(sp + tags[0], ',', " " + Join(rest, ", "));
      assert AllSpace(" ");
      SplitPaddedJoin(" ", rest);
    }
  }

  lemma {:induction false} ParsePadded(sp: string, tags: seq<string>)
    requires WellFormedTags(tags) && AllSpace(sp)
    ensures NonEmpty(TrimAll(Padded(sp, tags))) == tags
    decreases |tags|
  {
    if |tags| == 0 {
      assert TrimAll([]) == [];
    } else {
      WellFormedTail(tags);
      TrimAfterSpaces(sp, tags[0]);
      assert AllSpace(" ");
      ParsePadded(" ", tags[1..]);
      ParseConsPiece(sp + tags[0], Padded(" ", tags[1..]), tags[0]);
      assert tags == [tags[0]] + tags[1..];
    }
  }

  /** The edit form shows the stored tags joined with `', '`; saving that
      field unchanged sends exactly the stored tags back. */
  lemma TagsSurviveEditRoundTrip(tags: seq<string>)
    requires WellFormedTags(tags)
    ensures ParseTags(Join(tags, ", ")) == tags
  {
    if |tags| == 0 {
      SplitWithoutSeparator("", ',');
      TrimOfTrimmed("");
      assert TrimAll([""]) == [""];
      assert NonEmpty([""]) == [] by { assert [""][1..] == []; }
    } else {
      assert "" + Join(tags, ", ") == Join(tags, ", ");
      SplitPaddedJoin("", tags);
      ParsePadded("", tags);
    }
  }

  // ---------------------------------------------------------------------
  // Tab filter, draft counter, quiz check

  /** The query string `loadTutorials` appends for the active tab. */
  function TabQuery(tab: string): (q: string)
    ensures q != "" <==> tab == "published" || tab == "drafts"
    ensures PublishedParamOf(q).Some? <==> q != ""
  {
    if tab == "published" then "?published=true"
    else if tab == "drafts" then "?published=false"
    else ""
  }

  const PublishedParam := "?published="

  /** The value Express puts in `req.query.published` for a query string of
      the form `?published=<v>`; absent otherwise. */
  function PublishedParamOf(query: string): Option<string> {
    if PublishedParam <= query then Some(query[|PublishedParam|..]) else None
  }

  /** The `published` tab asks the owner-scoped list for published
      tutorials only, `drafts` for unpublished ones, any other tab for all. */
  lemma TabSelectsServerFilter(tab: string)
    ensures OwnedTutorials.PublishedFilter(PublishedParamOf(TabQuery(tab))) ==
      (if tab == "published" then Some(true) else if tab == "drafts" then Some(false) else None)
  {
    if tab == "published" {
      assert "?published=true"[|PublishedParam|..] == "true";
    } else if tab == "drafts" {
      assert "?published=false"[|PublishedParam|..] == "false";
    }
  }

  /** The positions of the unpublished entries of a listing. */
  function DraftPositions(list: seq<TutorialView>): set<int> {
    set i | 0 <= i < |list| && !list[i].doc.published
  }

  /** The `draftTutorials` counter: listed tutorials whose `published` is false. */
  function DraftCount(list: seq<TutorialView>): (n: nat)
    ensures n == |DraftPositions(list)|
    ensures n <= |list|
    ensures n == 0 <==> forall i :: 0 <= i < |list| ==> list[i].doc.published
    ensures n == |list| <==> forall i :: 0 <= i < |list| ==> !list[i].doc.published
  {
    if |list| == 0 then 0
    else
      var init := list[..|list| - 1];
      DraftPositionsSnoc(list);
      DraftCount(init) + (if list[|list| - 1].doc.published then 0 else 1)
  }

  /** The drafts of a listing are those of all but its last entry, plus
      the last one when it is unpublished. */
  lemma DraftPositionsSnoc(list: seq<TutorialView>)
    requires |list| > 0
    ensures var last := |list| - 1;
      && (forall i :: 0 <= i < last ==> list[i] == list[..last][i])
      && DraftPositions(list) == DraftPositions(list[..last]) + (if list[last].doc.published then {} else {last})
      && last !in DraftPositions(list[..last])
  {
  }

  /** Served by the owner-scoped list, the drafts tab counts every listed
      tutorial as a draft and the published tab counts none. */
  lemma DraftCounterOnTabs(s: Store, requester: Id)
    ensures var l := OwnedTutorials.ListOwn(s, requester, PublishedParamOf(TabQuery("drafts"))).reply.body.list;
      DraftCount(l) == |l|
    ensures var l := OwnedTutorials.ListOwn(s, requester, PublishedParamOf(TabQuery("published"))).reply.body.list;
      DraftCount(l) == 0
  {
    TabSelectsServerFilter("drafts");
    TabSelectsServerFilter("published");
  }

  /** Where a newest-first listing of `m` shows the document `id`. */
  lemma ListedAt(l: seq<TutorialView>, m: map<Id, Tutorial>, id: Id) returns (i: nat)
    requires ListsNewestFirst(l, m) && id in m
    ensures i < |l| && l[i].id == id && l[i].doc == m[id]
  {
    i :| 0 <= i < |l| && l[i].id == id;
  }

  /** A listing with a published entry counts fewer drafts than entries. */
  lemma PublishedEntryIsNoDraft(l: seq<TutorialView>, i: nat)
    requires i < |l| && l[i].doc.published
    ensures DraftCount(l) < |l|
  {
  }

  /** In the running app the unscoped list answers `GET /api/tutorials`
      and ignores the query, so once any tutorial is published the drafts
      tab lists more tutorials than its draft counter shows. */
  lemma ServedDraftsTabMixesInPublished(s: Store, id: Id)
    requires id in s.tutorials && s.tutorials[id].published
    ensures var l := Server.ListAll(s).reply.body.list; DraftCount(l) < |l|
  {
    var l := Server.ListAll(s).reply.body.list;
    var i := ListedAt(l, s.tutorials, id);
    PublishedEntryIsNoDraft(l, i);
  }

  datatype QuizVerdict = NoSelection | Right | Wrong(shownOption: int)

  /** `checkQuiz(sectionIndex, correctAnswer)`: the selected radio's value
      against `correct`; a wrong answer shows `correct + 1`. */
  function CheckQuiz(selected: Option<int>, correct: int): (v: QuizVerdict)
    ensures selected.None? <==> v == NoSelection
    ensures v == Right <==> selected == Some(correct)
    ensures v.Wrong? ==> v.shownOption == correct + 1 && selected.Some? && selected.value != correct
  {
    match selected
    case None => NoSelection
    case Some(answer) => if answer == correct then Right else Wrong(correct + 1)
  }

  const WrongAnswerPrefix := "Wrong! Correct answer is option "

  /** The notification `checkQuiz` shows (its leading warning sign omitted). */
  function QuizNotification(v: QuizVerdict): (m: string)
    ensures v.Wrong? <==> WrongAnswerPrefix <= m
    ensures v.Wrong? && v.shownOption >= 0 ==> m[|WrongAnswerPrefix|..] == NatToString(v.shownOption)
  {
    match v
    case NoSelection => "Please select an answer!"
    case Right => "Correct! Great job!"
    case Wrong(shown) => WrongAnswerPrefix + IntToString(shown)
  }

  /** The notification tells the verdicts apart, and a wrong answer's
      notification names exactly one option. */
  lemma QuizNotificationIdentifiesVerdict(v1: QuizVerdict, v2: QuizVerdict)
    ensures QuizNotification(v1) == QuizNotification(v2) ==> v1 == v2
  {
    if QuizNotification(v1) == QuizNotification(v2) && v1.Wrong? && v2.Wrong? {
      var n := |WrongAnswerPrefix|;
      assert IntToString(v1.shownOption) == QuizNotification(v1)[n..];
      assert IntToString(v2.shownOption) == QuizNotification(v2)[n..];
      IntToStringInjective(v1.shownOption, v2.shownOption);
    }
  }

  /** The viewer's radios carry the option positions as values. A reader who
      picks the option text the author chose is told it is right, when the
      quiz was collected by `CollectSections`. */
  lemma ChosenOptionIsJudgedRight(editors: seq<SectionEditor>, k: nat, pick: nat)
    requires k < |CollectSections(editors)| && |CollectSections(editors)[k].quiz| == 1
    requires var q := CollectSections(editors)[k].quiz[0]; var e := editors[FilledPositions(editors, 0)[k]];
      pick < |q.options| && e.checked.Some? && e.checked.value < |e.optionInputs|
      && q.options[pick] == e.optionInputs[e.checked.value]
    requires var q := CollectSections(editors)[k].quiz[0];
      forall i, j :: 0 <= i < j < |q.options| ==> q.options[i] != q.options[j]
    ensures CheckQuiz(Some(pick), CollectSections(editors)[k].quiz[0].correct) == Right
  {
    CollectedQuizMarksChosenOption(editors, k);
  }

  /** With the collection as written, the reader who picks the author's
      choice "A" in the gap example is told it is wrong. */
  lemma AsWrittenJudgesChosenOptionWrong()
    ensures var q := SectionAsWritten(EditorWithGap, 0).quiz[0];
      q.options[0] == "A" && CheckQuiz(Some(0), q.correct) == Wrong(2)
  {
    AsWrittenMisplacesCorrectAnswer();
  }

  // ---------------------------------------------------------------------
  // Session flags

  /** The controller's state: the in-memory token, the token in local
      storage, the signed-in user, the tutorial being edited, the active
      tab and the save guard. */
  datatype ClientState = ClientState(
    token: Option<string>,
    storedToken: Option<string>,
    currentUser: Option<UserSummary>,
    editingTutorialId: Option<Id>,
    tabFilter: string,
    isCreating: bool)

  datatype SaveTarget = CreateNew | UpdateExisting(id: Id)

  datatype SaveStart = SaveStart(state: ClientState, target: Option<SaveTarget>)

  /** Entering `saveTutorial`: refused while a save is in flight, otherwise
      the guard is raised and the request goes to PUT for the tutorial
      being edited or to POST for a new one. */
  function BeginSave(st: ClientState): (r: SaveStart)
    ensures st.isCreating <==> r.target.None?
    ensures st.isCreating ==> r.state == st
    ensures !st.isCreating ==> r.state == st.(isCreating := true)
    ensures r.target.Some? ==>
      (r.target.value == CreateNew <==> st.editingTutorialId.None?)
      && (st.editingTutorialId.Some? ==> r.target.value == UpdateExisting(st.editingTutorialId.value))
  {
    if st.isCreating then SaveStart(st, None)
    else
      var target := if st.editingTutorialId.Some? then UpdateExisting(st.editingTutorialId.value) else CreateNew;
      SaveStart(st.(isCreating := true), Some(target))
  }

  /** Leaving `saveTutorial`: the `finally` lowers the guard whatever
      happened; on success `hideTutorialModal` also clears the edited id. */
  function FinishSave(st: ClientState, succeeded: bool): (r: ClientState)
    ensures !r.isCreating
    ensures succeeded ==> r.editingTutorialId.None?
    ensures !succeeded ==> r.editingTutorialId == st.editingTutorialId
    ensures r.token == st.token && r.currentUser == st.currentUser && r.tabFilter == st.tabFilter
  {
    var afterTry := if succeeded then st.(editingTutorialId := None) else st;
    afterTry.(isCreating := false)
  }

  /** A second save while the first is in flight is refused, and once the
      first finishes, by success or failure, the next save goes ahead. */
  lemma SaveGuard(st: ClientState, succeeded: bool)
    requires !st.isCreating
    ensures BeginSave(BeginSave(st).state).target.None?
    ensures BeginSave(FinishSave(BeginSave(st).state, succeeded)).target.Some?
  {
  }

  /** `logout()`: token (in memory and in storage), user and edited id are
      cleared; the tab and the save guard are left alone. */
  function Logout(st: ClientState): (r: ClientState)
    ensures r.token.None? && r.storedToken.None? && r.currentUser.None? && r.editingTutorialId.None?
    ensures r.tabFilter == st.tabFilter && r.isCreating == st.isCreating
  {
    st.(token := None, storedToken := None, currentUser := None, editingTutorialId := None)
  }

  /** A successful login or registration: the reply's token is kept in
      memory and in storage, and its user becomes the current user. */
  function SignIn(st: ClientState, token: string, user: UserSummary): (r: ClientState)
    ensures r.token == Some(token) && r.storedToken == Some(token) && r.currentUser == Some(user)
    ensures r.editingTutorialId == st.editingTutorialId && r.isCreating == st.isCreating
  {
    st.(token := Some(token), storedToken := Some(token), currentUser := Some(user))
  }

  /** The Authorization header `apiCall` attaches: `Bearer <token>` when
      the token is a non-empty string, none otherwise. */
  function AuthHeader(st: ClientState): (h: Option<string>)
    ensures h.Some? <==> st.token.Some? && st.token.value != ""
  {
    if st.token.Some? && st.token.value != "" then Some(Server.BearerPrefix + st.token.value) else None
  }

  /** After signing in with the token the server issued for a user, the
      server identifies that client's requests as that user. */
  lemma SignedInClientIsIdentified(o: Oracles, users: map<Id, User>, st: ClientState, id: Id, user: UserSummary)
    requires Lawful(o) && id in users
    ensures Server.CurrentUser(o, users, AuthHeader(SignIn(st, o.sign(id), user))) == Some(id)
  {
    Server.SignedTokenIdentifiesUser(o, users, id);
  }

  /** After logout the client sends no token, so the server treats it as
      anonymous and refuses to create a tutorial for it. */
  lemma LoggedOutClientIsAnonymous(o: Oracles, s: Store, st: ClientState, body: TutorialFields, newId: Id, now: nat)
    ensures Server.CurrentUser(o, s.users, AuthHeader(Logout(st))).None?
    ensures var current := Server.CurrentUser(o, s.users, AuthHeader(Logout(st)));
      Server.Create(s, current, body, newId, now).reply == Reply(401, Message(Server.LoginRequired))
  {
  }
}
