/** The records of the feedback application (`FeedbackRequest`, `Feedback`,
    the user and the part of the profile the views read), the database as
    three tables, the integrity rules the schema imposes, and the cleaning
    `FeedbackForm` performs before a `Feedback` row is created. */
module Models {
  import opened Text

  datatype Option<T> = None | Some(value: T)

  type UserId = nat

  /** A profile, reduced to the company name the views compare; the empty
      string stands for a missing or empty company. */
  datatype Profile = Profile(company: string)

  /** A user; `profile` is absent when no profile row exists. */
  datatype User = User(id: UserId, firstName: string, lastName: string, profile: Option<Profile>)

  /** The two values the code writes into the `status` column. */
  datatype Status = Pending | Completed

  datatype Date = Date(year: int, month: int, day: int)

  /** A solicitation: `requester` asks `requestedTo` for feedback. The comment
      is optional, the due date is required. */
  datatype FeedbackRequest = FeedbackRequest(
    requester: UserId,
    requestedTo: UserId,
    projectName: string,
    comment: Option<string>,
    dueDate: Date,
    status: Status)

  /** The default of each of the five competency columns. */
  const DefaultCompetencyRating: int := 5

  /** The `max_length` of the `keywords` column. */
  const KeywordsMaxLength: nat := 255

  /** A submitted feedback; `requestId` is the one-to-one link to its request. */
  datatype Feedback = Feedback(
    requestId: nat,
    rating: int,
    teamwork: int,
    communication: int,
    initiative: int,
    technicalSkills: int,
    problemSolving: int,
    keywords: string,
    comments: string,
    text: string)

  /** The database. A request's primary key is its index in `requests`: keys
      are handed out in insertion order and nothing in the core deletes rows.
      Rows of `feedbacks` are in insertion order; the queries over them are
      taken to return rows in this order. */
  datatype Db = Db(users: seq<User>, requests: seq<FeedbackRequest>, feedbacks: seq<Feedback>)

  predicate HasUser(users: seq<User>, id: UserId) {
    exists i :: 0 <= i < |users| && users[i].id == id
  }

  /** The user with primary key `id`, if any. */
  function FindUser(users: seq<User>, id: UserId): (r: Option<User>)
    ensures r.Some? <==> HasUser(users, id)
    ensures r.Some? ==> r.value in users && r.value.id == id
  {
    if |users| == 0 then None
    else if users[0].id == id then Some(users[0])
    else
      assert forall i :: 1 <= i < |users| ==> users[i] == users[1..][i - 1];
      FindUser(users[1..], id)
  }

  predicate UniqueIds(users: seq<User>) {
    forall i, j :: 0 <= i < j < |users| ==> users[i].id != users[j].id
  }

  /** Request `k` has a feedback row. */
  predicate HasFeedback(db: Db, k: nat) {
    exists i :: 0 <= i < |db.feedbacks| && db.feedbacks[i].requestId == k
  }

  /** The integrity the schema and the views maintain together: user keys are
      unique, every request names existing users, every feedback belongs to an
      existing request, no request has two feedbacks (the one-to-one link), and
      a request is completed exactly when its feedback exists. */
  predicate Consistent(db: Db) {
    && UniqueIds(db.users)
    && (forall k :: 0 <= k < |db.requests| ==>
          HasUser(db.users, db.requests[k].requester) && HasUser(db.users, db.requests[k].requestedTo))
    && (forall i :: 0 <= i < |db.feedbacks| ==> db.feedbacks[i].requestId < |db.requests|)
    && (forall i, j :: 0 <= i < j < |db.feedbacks| ==> db.feedbacks[i].requestId != db.feedbacks[j].requestId)
    && (forall k :: 0 <= k < |db.requests| ==> (db.requests[k].status == Completed <==> HasFeedback(db, k)))
  }

  /** `db'` is `db` moved forward by the views: no user changes, rows are only
      appended, and the only change to an existing request is a pending one
      becoming completed. */
  predicate Advances(db: Db, db': Db) {
    && db'.users == db.users
    && |db.requests| <= |db'.requests|
    && |db.feedbacks| <= |db'.feedbacks|
    && db'.feedbacks[..|db.feedbacks|] == db.feedbacks
    && (forall k :: 0 <= k < |db.requests| ==>
          || db'.requests[k] == db.requests[k]
          || (db.requests[k].status == Pending && db'.requests[k] == db.requests[k].(status := Completed)))
  }

  /** A request as `FeedbackRequest.objects.create` stores it when only the
      requester, addressee, project and due date are given. */
  function NewRequest(requester: UserId, requestedTo: UserId, projectName: string, dueDate: Date): (r: FeedbackRequest)
    ensures r.status == Pending
    ensures r.comment == None
    ensures r.requester == requester && r.requestedTo == requestedTo
  {
    FeedbackRequest(requester, requestedTo, projectName, None, dueDate, Pending)
  }

  /** The raw POST data of `FeedbackForm`, which exposes `rating`, `keywords`
      and `feedback` only. A missing text field reads as ""; `rating` is None
      when it is missing or not an integer. */
  datatype FeedbackForm = FeedbackForm(rating: Option<int>, keywords: string, text: string)

  /** The form's cleaned data. */
  datatype CleanedFeedback = CleanedFeedback(rating: int, keywords: string, text: string)

  /** What a valid form may hold: a non-empty `keywords` of at most 255
      characters and a non-empty `feedback` text. */
  predicate FieldsValid(keywords: string, text: string) {
    keywords != "" && |keywords| <= KeywordsMaxLength && text != ""
  }

  /** `FeedbackForm.is_valid()`: the text fields are stripped first, then all
      three fields are required and `keywords` may not exceed 255 characters. */
  function CleanForm(form: FeedbackForm): (c: Option<CleanedFeedback>)
    ensures c.Some? <==> form.rating.Some? && FieldsValid(Strip(form.keywords), Strip(form.text))
    ensures c.Some? ==>
      && c.value.rating == form.rating.value
      && IsStripOf(c.value.keywords, form.keywords) && Trimmed(c.value.keywords)
      && IsStripOf(c.value.text, form.text) && Trimmed(c.value.text)
      && FieldsValid(c.value.keywords, c.value.text)
  {
    var keywords := Strip(form.keywords);
    var text := Strip(form.text);
    if form.rating.Some? && FieldsValid(keywords, text) then
      Some(CleanedFeedback(form.rating.value, keywords, text))
    else
      None
  }

  /** The feedback row `fill_feedback` saves for request `k`: the form supplies
      rating, keywords and text; every other column takes its default. */
  function FeedbackFromForm(k: nat, c: CleanedFeedback): (f: Feedback)
    ensures f.requestId == k
    ensures f.rating == c.rating && f.keywords == c.keywords && f.text == c.text
    ensures f.teamwork == f.communication == f.initiative == f.technicalSkills == f.problemSolving
            == DefaultCompetencyRating
    ensures f.comments == ""
  {
    Feedback(k, c.rating, DefaultCompetencyRating, DefaultCompetencyRating, DefaultCompetencyRating,
             DefaultCompetencyRating, DefaultCompetencyRating, c.keywords, "", c.text)
  }
}
