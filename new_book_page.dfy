/** The add-book form (src/app/books/new/page.tsx): the request body that
    "Save" and "Save & AI Enrich" send, and the enrich button's guard. The
    React state, the page's rendering and the network calls are not part of
    this model; a step says which request the handler would send next. */
module NewBookPage {
  import opened Model
  import Rbac
  import TagParsing
  import BooksRoute

  /** The form's eight text inputs; each starts out as "". */
  datatype BookForm = BookForm(
    title: string,
    author: string,
    genre: string,
    tags: string,
    description: string,
    isbn: string,
    coverUrl: string,
    difficulty: string)

  /** The page body is rendered only for a librarian or an admin. */
  predicate PageShown(session: Option<Session>)
  {
    Rbac.CurrentUser(session).Some? &&
    (Rbac.CurrentUser(session).value.role == Admin || Rbac.CurrentUser(session).value.role == Librarian)
  }

  /** `JSON.stringify({ ...form, tags: <parsed> })` as the handler reads it:
      every text field as given, the tags as the parsed list, and no status. */
  function Payload(form: BookForm): (body: BooksRoute.BookBody)
    ensures body.title == Some(form.title) && body.author == Some(form.author)
    ensures body.tags == Some(TagParsing.ParseTags(form.tags))
    ensures body.status.None?
    ensures body.genre == Some(form.genre) && body.description == Some(form.description)
    ensures body.isbn == Some(form.isbn) && body.coverUrl == Some(form.coverUrl)
    ensures body.difficulty == Some(form.difficulty)
  {
    BooksRoute.BookBody(Some(form.title), Some(form.author), Some(form.genre),
                        Some(TagParsing.ParseTags(form.tags)), Some(form.description),
                        Some(form.isbn), Some(form.coverUrl), Some(form.difficulty), None)
  }

  /** What a click leads to: the browser refusing to submit (nothing sent,
      no handler run), an error shown with no request sent, or a
      `POST /api/books` with this body. */
  datatype Step = Blocked | Rejected(error: string) | PostBook(body: BooksRoute.BookBody)

  const MsgEnrichNeedsTitleAuthor: string := "Enter title and author first to use AI enrichment"

  /** `handleSubmit`, once it runs: it posts the form, with the parsed tags
      and no status. */
  function HandleSubmit(form: BookForm): (s: Step)
    ensures s.PostBook? && s.body.title == Some(form.title) && s.body.author == Some(form.author)
    ensures s.PostBook? && s.body.tags == Some(TagParsing.ParseTags(form.tags)) && s.body.status.None?
    ensures s == PostBook(Payload(form))
  {
    PostBook(Payload(form))
  }

  /** A click on "Save", a submit button: the title and author inputs are
      `required`, so the browser submits (and `handleSubmit` runs) only when
      both are non-empty. A title of spaces is not empty and goes through. */
  function SaveClick(form: BookForm): (s: Step)
    ensures s.Blocked? <==> form.title == "" || form.author == ""
    ensures !s.Blocked? ==> s == HandleSubmit(form)
    ensures !s.Rejected?
  {
    if form.title == "" || form.author == "" then Blocked else HandleSubmit(form)
  }

  /** `handleEnrich`: with an empty title or author, the error and no
      request; otherwise the same post as "Save" (the enrich call follows
      only once that post succeeds). */
  function HandleEnrich(form: BookForm): (s: Step)
    ensures s.Rejected? <==> form.title == "" || form.author == ""
    ensures s.Rejected? ==> s.error == MsgEnrichNeedsTitleAuthor
    ensures !s.Rejected? ==> s == HandleSubmit(form)
  {
    if form.title == "" || form.author == "" then Rejected(MsgEnrichNeedsTitleAuthor)
    else PostBook(Payload(form))
  }

  /** The two buttons send a request for exactly the same forms, and then
      the same body; where "Save" is blocked, "Save & AI Enrich" shows its
      error instead. */
  lemma SaveAndEnrichAgree(form: BookForm)
    ensures SaveClick(form).PostBook? <==> HandleEnrich(form).PostBook?
    ensures SaveClick(form).PostBook? ==> SaveClick(form).body == HandleEnrich(form).body
    ensures SaveClick(form).Blocked? <==> HandleEnrich(form).Rejected?
  {
  }

  /** The page's staff test is the handlers' staff gate. */
  lemma PageShownIffStaff(session: Option<Session>)
    ensures PageShown(session) <==> Rbac.StaffGate(session).Ok?
  {
  }

  /** The enrich guard refuses exactly the forms whose post the API would
      refuse for a missing title or author: an enrich post always passes that check. */
  lemma EnrichGuardMatchesApi(form: BookForm)
    ensures HandleEnrich(form).Rejected? <==>
              BooksRoute.MissingOrEmpty(Payload(form).title) || BooksRoute.MissingOrEmpty(Payload(form).author)
  {
  }

  /** The book the API creates from a posted form: the title and author as
      typed, the parsed tags, each empty text field as null, status AVAILABLE. */
  lemma CreatedFromForm(id: Id, form: BookForm, now: Instant)
    requires form.title != "" && form.author != ""
    ensures var b := BooksRoute.NewBook(id, Payload(form), now);
      && b.title == form.title && b.author == form.author
      && b.tags == TagParsing.ParseTags(form.tags)
      && (b.genre.None? <==> form.genre == "") && (b.isbn.None? <==> form.isbn == "")
      && (b.description.None? <==> form.description == "")
      && (b.coverUrl.None? <==> form.coverUrl == "") && (b.difficulty.None? <==> form.difficulty == "")
      && b.status == Available
  {
  }

  /** Saving a book whose tags field holds an earlier parse joined by commas
      stores the same tags again. */
  lemma ResavedTagsStable(form: BookForm)
    ensures var tags := TagParsing.ParseTags(form.tags);
      Payload(form.(tags := TagParsing.Join(tags, ','))).tags == Some(tags)
  {
    TagParsing.ParseTagsIdempotent(form.tags);
  }
}
