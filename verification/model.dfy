/** The two Mongoose models: the user and tutorial documents, the schema's
    required paths and defaults, the password pre-save hook and
    `comparePassword`. */
module Model {
  import opened Common
  import opened Crypto

  /** One multiple-choice question. `correct` is a bare number: the schema
      ties it neither to `options` nor to any range. */
  datatype QuizItem = QuizItem(question: string, options: seq<string>, correct: int)

  /** A titled block of a tutorial; `quiz` is a list (the client sends at most one). */
  datatype Section = Section(title: string, content: string, quiz: seq<QuizItem>)

  /** A stored tutorial; `createdAt` is the timestamp Mongoose sets on insert. */
  datatype Tutorial = Tutorial(
    title: string,
    sections: seq<Section>,
    tags: seq<string>,
    author: Id,
    views: int,
    published: bool,
    createdAt: nat)

  /** A stored user; `password` holds whatever the pre-save hook left there. */
  datatype User = User(username: string, email: string, password: string, createdAt: nat)

  /** The fields a request body may carry for a tutorial; `None` is an absent key. */
  datatype TutorialFields = TutorialFields(
    title: Option<string>,
    sections: Option<seq<Section>>,
    tags: Option<seq<string>>,
    author: Option<Id>,
    views: Option<int>,
    published: Option<bool>)

  // Mongoose's `required` on a String path rejects a missing value and the empty string.

  predicate QuizItemValid(q: QuizItem) {
    q.question != "" && forall i :: 0 <= i < |q.options| ==> q.options[i] != ""
  }

  predicate SectionValid(s: Section) {
    s.title != "" && s.content != "" && forall i :: 0 <= i < |s.quiz| ==> QuizItemValid(s.quiz[i])
  }

  /** The required paths of a tutorial document are all filled. */
  predicate TutorialValid(t: Tutorial) {
    t.title != "" && forall i :: 0 <= i < |t.sections| ==> SectionValid(t.sections[i])
  }

  /** `new Tutorial(f)` followed by the validation `save()` runs: `None` when
      a required path is missing, otherwise the document with the schema
      defaults filled in (`views` 0, `published` true, empty arrays). */
  function BuildTutorial(f: TutorialFields, now: nat): (r: Option<Tutorial>)
    ensures r.Some? <==> (f.author.Some? && f.title.Some? && f.title.value != ""
                          && (f.sections.Some? ==> forall i :: 0 <= i < |f.sections.value| ==> SectionValid(f.sections.value[i])))
    ensures r.Some? ==> TutorialValid(r.value) && r.value.createdAt == now
    ensures r.Some? ==> r.value.author == f.author.value && r.value.title == f.title.value
    ensures r.Some? && f.views.None? ==> r.value.views == 0
    ensures r.Some? && f.views.Some? ==> r.value.views == f.views.value
    ensures r.Some? && f.published.None? ==> r.value.published
    ensures r.Some? && f.published.Some? ==> r.value.published == f.published.value
    ensures r.Some? ==> r.value.sections == f.sections.GetOr([]) && r.value.tags == f.tags.GetOr([])
  {
    if f.author.None? || f.title.None? then None
    else
      var t := Tutorial(f.title.value, f.sections.GetOr([]), f.tags.GetOr([]), f.author.value,
                        f.views.GetOr(0), f.published.GetOr(true), now);
      if TutorialValid(t) then Some(t) else None
  }

  /** A Mongoose update (`findOneAndUpdate` / `findByIdAndUpdate`) with the
      given fields: each supplied path is overwritten, every other path and
      the creation time stay as they were. No validator runs on this path. */
  function ApplyUpdate(t: Tutorial, f: TutorialFields): (r: Tutorial)
    ensures r.createdAt == t.createdAt
    ensures r.title == f.title.GetOr(t.title) && r.sections == f.sections.GetOr(t.sections)
    ensures r.tags == f.tags.GetOr(t.tags) && r.author == f.author.GetOr(t.author)
    ensures r.views == f.views.GetOr(t.views) && r.published == f.published.GetOr(t.published)
    ensures f == TutorialFields(None, None, None, None, None, None) ==> r == t
  {
    t.(title := f.title.GetOr(t.title),
       sections := f.sections.GetOr(t.sections),
       tags := f.tags.GetOr(t.tags),
       author := f.author.GetOr(t.author),
       views := f.views.GetOr(t.views),
       published := f.published.GetOr(t.published))
  }

  /** The `pre('save')` hook: the password path is replaced by its bcrypt
      hash only when it was modified; otherwise the stored value is kept. */
  function PreSave(o: Oracles, password: string, isModified: bool, salt: nat): (stored: string)
    ensures !isModified ==> stored == password
    ensures isModified && Lawful(o) ==> o.compare(password, stored) && stored != password
  {
    if !isModified then password else o.hash(password, salt)
  }

  /** `user.comparePassword(p)`: bcrypt's comparison against the stored hash. */
  function ComparePassword(o: Oracles, u: User, p: string): (ok: bool)
    ensures Lawful(o) && (exists salt :: u.password == o.hash(p, salt)) ==> ok
  {
    o.compare(p, u.password)
  }

  /** A password that went through the hook with `isModified` set is
      accepted by `comparePassword`. */
  lemma SavedPasswordCompares(o: Oracles, u: User, plain: string, salt: nat)
    requires Lawful(o)
    requires u.password == PreSave(o, plain, true, salt)
    ensures ComparePassword(o, u, plain)
  {
  }
}
