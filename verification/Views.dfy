/** The request handlers of the feedback application, as functions from the
    database (and the signed-in user) to a new database and a response: the
    team listings, creating and filling feedback requests, and the results
    page. */
module Views {
  import opened Text
  import opened Numeric
  import opened Models
  import opened Analytics

  // ---------------------------------------------------------------------------
  // Team selection: get_team_members and team_members_list
  // ---------------------------------------------------------------------------

  /** The name a member is listed under. */
  function FullName(u: User): string {
    u.firstName + " " + u.lastName
  }

  /** The company the caller's team is chosen by, if any: a profile with a
      non-empty company narrows the team; an empty company and a missing
      profile both fall back to everyone. */
  function TeamCompany(caller: User): Option<string> {
    if caller.profile.Some? && caller.profile.value.company != "" then Some(caller.profile.value.company)
    else None
  }

  /** `u` passes the team query of `caller`: `profile__company__iexact`, when
      the caller has a company; everyone otherwise. */
  predicate InTeam(u: User, caller: User) {
    match TeamCompany(caller)
    case None => true
    case Some(c) => u.profile.Some? && EqualsIgnoreCase(u.profile.value.company, c)
  }

  /** The users of the team query, in table order, without the caller when
      `excludeCaller` is set (`.exclude(id=user.id)`). */
  function TeamUsers(users: seq<User>, caller: User, excludeCaller: bool): (r: seq<User>)
    ensures |r| <= |users|
    ensures forall u :: u in r <==> u in users && InTeam(u, caller) && (excludeCaller ==> u.id != caller.id)
    ensures UniqueIds(users) ==> UniqueIds(r)
  {
    if |users| == 0 then []
    else
      var front := users[..|users| - 1];
      var init := TeamUsers(front, caller, excludeCaller);
      var last := users[|users| - 1];
      assert users == front + [last];
      UniqueFront(users);
      if InTeam(last, caller) && (excludeCaller ==> last.id != caller.id) then
        UniqueSnoc(front, last, init);
        init + [last]
      else init
  }

  /** Dropping the last user keeps the ids unique. */
  lemma UniqueFront(users: seq<User>)
    requires |users| > 0
    ensures UniqueIds(users) ==> UniqueIds(users[..|users| - 1])
  {
    var front := users[..|users| - 1];
    assert forall i :: 0 <= i < |front| ==> front[i] == users[i];
  }

  /** Appending the last user to a selection of the earlier ones keeps the
      ids unique. */
  lemma UniqueSnoc(front: seq<User>, last: User, init: seq<User>)
    requires forall u :: u in init ==> u in front
    ensures UniqueIds(front + [last]) && UniqueIds(init) ==> UniqueIds(init + [last])
  {
    var users := front + [last];
    if UniqueIds(users) && UniqueIds(init) {
      forall u | u in init
        ensures u.id != last.id
      {
        var j :| 0 <= j < |front| && front[j] == u;
        assert users[j] == u && users[|front|] == last;
      }
      var r := init + [last];
      forall i, j | 0 <= i < j < |r|
        ensures r[i].id != r[j].id
      {
        if j == |init| {
          assert r[i] in init;
        } else {
          assert r[i] == init[i] && r[j] == init[j];
        }
      }
    }
  }

  /** One entry of the JSON list: `{'id': ..., 'name': ...}`. */
  datatype MemberEntry = MemberEntry(id: UserId, name: string)

  function Entry(u: User): MemberEntry {
    MemberEntry(u.id, FullName(u))
  }

  /** `get_team_members`: the caller's colleagues, never the caller. With a
      company set, exactly the other users whose company matches it ignoring
      case; without one (empty company or no profile), every other user. */
  function GetTeamMembers(db: Db, caller: User): (r: seq<MemberEntry>)
    ensures forall e :: e in r ==> e.id != caller.id
    ensures forall e :: e in r ==> exists u :: u in db.users && InTeam(u, caller) && e == Entry(u)
    ensures forall u :: u in db.users && u.id != caller.id && InTeam(u, caller) ==> Entry(u) in r
    ensures TeamCompany(caller).Some? ==> forall e :: e in r ==>
      exists u :: u in db.users && e == Entry(u) && u.profile.Some?
        && EqualsIgnoreCase(u.profile.value.company, TeamCompany(caller).value)
    ensures TeamCompany(caller).None? ==> forall u :: u in db.users && u.id != caller.id ==> Entry(u) in r
    ensures UniqueIds(db.users) ==> forall i, j :: 0 <= i < j < |r| ==> r[i].id != r[j].id
  {
    Entries(TeamUsers(db.users, caller, true))
  }

  /** The JSON entries of `us`, one per user and in the same order. */
  function Entries(us: seq<User>): (r: seq<MemberEntry>)
    ensures |r| == |us|
    ensures forall i :: 0 <= i < |us| ==> r[i] == Entry(us[i])
    ensures forall e :: e in r ==> exists u :: u in us && e == Entry(u)
    ensures forall u :: u in us ==> Entry(u) in r
    ensures UniqueIds(us) ==> forall i, j :: 0 <= i < j < |r| ==> r[i].id != r[j].id
  {
    var r := seq(|us|, i requires 0 <= i < |us| => Entry(us[i]));
    assert forall e :: e in r ==> exists i :: 0 <= i < |us| && e == Entry(us[i]);
    assert forall i :: 0 <= i < |us| ==> us[i] in us;
    assert forall u :: u in us ==> Entry(u) in r by {
      forall u | u in us
        ensures Entry(u) in r
      {
        var i :| 0 <= i < |us| && us[i] == u;
        assert r[i] == Entry(u);
      }
    }
    r
  }

  /** A team member with the average of the ratings they gave: the ratings of
      the completed feedback on requests addressed to them, which they wrote. */
  datatype MemberAverage = MemberAverage(user: User, averageRating: real)

  datatype TeamPage = TeamPage(members: seq<MemberAverage>, pendingFeedbackCount: nat, overallAvgRating: real)

  function Ids(us: seq<User>): set<UserId> {
    set u | u in us :: u.id
  }

  /** The one-decimal average rating of the completed feedback on requests
      addressed to `u`, that is of the feedback `u` wrote; 0 when there is
      none. */
  function AddresseeAverage(db: Db, u: User): real {
    Round(Mean(Ratings(Select(db, Addressee(u.id)))), OneDecimal)
  }

  /** The number of pending requests addressed to one of `ids`. */
  function CountPending(requests: seq<FeedbackRequest>, ids: set<UserId>): nat {
    if |requests| == 0 then 0
    else
      var last := requests[|requests| - 1];
      CountPending(requests[..|requests| - 1], ids) + if last.status == Pending && last.requestedTo in ids then 1 else 0
  }

  /** The positions of the pending requests addressed to one of `ids`. */
  function PendingRows(requests: seq<FeedbackRequest>, ids: set<UserId>, n: nat): set<nat>
    requires n <= |requests|
  {
    set k: nat | k < n && requests[k].status == Pending && requests[k].requestedTo in ids
  }

  /** The count is the number of pending requests addressed to the team:
      completed ones and ones to outsiders are not counted. */
  lemma {:induction false} CountPendingRows(requests: seq<FeedbackRequest>, ids: set<UserId>, n: nat)
    requires n <= |requests|
    ensures CountPending(requests[..n], ids) == |PendingRows(requests, ids, n)|
  {
    if n == 0 {
      assert PendingRows(requests, ids, 0) == {};
    } else {
      CountPendingRows(requests, ids, n - 1);
      assert requests[..n][..n - 1] == requests[..n - 1];
      PendingStep(requests, ids, n);
    }
  }

  lemma PendingStep(requests: seq<FeedbackRequest>, ids: set<UserId>, n: nat)
    requires 0 < n <= |requests|
    ensures |PendingRows(requests, ids, n)| == |PendingRows(requests, ids, n - 1)|
      + if requests[n - 1].status == Pending && requests[n - 1].requestedTo in ids then 1 else 0
  {
    var before := PendingRows(requests, ids, n - 1);
    var after := PendingRows(requests, ids, n);
    var added := if requests[n - 1].status == Pending && requests[n - 1].requestedTo in ids then {n - 1} else {};
    forall i: nat
      ensures i in after <==> i in before + added
    {
    }
    assert after == before + added;
    assert n - 1 !in before;
  }

  /** The team page for the users the team query returns. */
  function TeamPageOf(db: Db, caller: User, excludeCaller: bool): (p: TeamPage)
    ensures var team := TeamUsers(db.users, caller, excludeCaller);
      && |p.members| == |team|
      && (forall i :: 0 <= i < |team| ==> p.members[i] == MemberAverage(team[i], AddresseeAverage(db, team[i])))
      && p.pendingFeedbackCount == |PendingRows(db.requests, Ids(team), |db.requests|)|
      && p.overallAvgRating == Round(Mean(Ratings(Select(db, AddresseeIn(Ids(team))))), OneDecimal)
  {
    var team := TeamUsers(db.users, caller, excludeCaller);
    var members := seq(|team|, i requires 0 <= i < |team| => MemberAverage(team[i], AddresseeAverage(db, team[i])));
    CountPendingRows(db.requests, Ids(team), |db.requests|);
    assert db.requests[..|db.requests|] == db.requests;
    TeamPage(members, CountPending(db.requests, Ids(team)),
             Round(Mean(Ratings(Select(db, AddresseeIn(Ids(team))))), OneDecimal))
  }

  /** `team_members_list` as written: the team query does not exclude the
      caller. Each member carries the one-decimal average rating of the
      completed feedback they wrote (0 when none); the pending count counts only
      pending requests addressed to the listed users. */
  function TeamMembersList(db: Db, caller: User): (p: TeamPage)
    ensures forall m :: m in p.members ==> m.user in db.users && InTeam(m.user, caller)
    ensures forall u :: u in db.users && InTeam(u, caller) ==> MemberAverage(u, AddresseeAverage(db, u)) in p.members
    ensures forall m :: m in p.members ==> m.averageRating == AddresseeAverage(db, m.user)
    ensures p.pendingFeedbackCount ==
      |PendingRows(db.requests, Ids(TeamUsers(db.users, caller, false)), |db.requests|)|
    ensures p.overallAvgRating ==
      Round(Mean(Ratings(Select(db, AddresseeIn(Ids(TeamUsers(db.users, caller, false)))))), OneDecimal)
    ensures |p.members| == |TeamUsers(db.users, caller, false)|
    ensures UniqueIds(db.users) ==>
      forall i, j :: 0 <= i < j < |p.members| ==> p.members[i].user.id != p.members[j].user.id
  {
    TeamMembersOf(db, caller, false)
  }

  /** `team_members_list` as its tests expect it: the caller is not listed. */
  function TeamMembersListExcludingCaller(db: Db, caller: User): (p: TeamPage)
    ensures forall m :: m in p.members ==> m.user in db.users && InTeam(m.user, caller) && m.user.id != caller.id
    ensures forall u :: u in db.users && InTeam(u, caller) && u.id != caller.id ==>
      MemberAverage(u, AddresseeAverage(db, u)) in p.members
    ensures forall m :: m in p.members ==> m.averageRating == AddresseeAverage(db, m.user)
    ensures p.pendingFeedbackCount ==
      |PendingRows(db.requests, Ids(TeamUsers(db.users, caller, true)), |db.requests|)|
    ensures p.overallAvgRating ==
      Round(Mean(Ratings(Select(db, AddresseeIn(Ids(TeamUsers(db.users, caller, true)))))), OneDecimal)
    ensures |p.members| == |TeamUsers(db.users, caller, true)|
    ensures UniqueIds(db.users) ==>
      forall i, j :: 0 <= i < j < |p.members| ==> p.members[i].user.id != p.members[j].user.id
  {
    TeamMembersOf(db, caller, true)
  }

  /** Membership of the team page in terms of the users. */
  function TeamMembersOf(db: Db, caller: User, excludeCaller: bool): (p: TeamPage)
    ensures p == TeamPageOf(db, caller, excludeCaller)
    ensures forall m :: m in p.members ==>
      m.user in db.users && InTeam(m.user, caller) && (excludeCaller ==> m.user.id != caller.id)
      && m.averageRating == AddresseeAverage(db, m.user)
    ensures forall u :: u in db.users && InTeam(u, caller) && (excludeCaller ==> u.id != caller.id) ==>
      MemberAverage(u, AddresseeAverage(db, u)) in p.members
  {
    var p := TeamPageOf(db, caller, excludeCaller);
    var team := TeamUsers(db.users, caller, excludeCaller);
    assert forall m :: m in p.members ==> exists i :: 0 <= i < |team| && m == p.members[i];
    assert forall i :: 0 <= i < |team| ==> team[i] in team;
    forall u | u in team
      ensures MemberAverage(u, AddresseeAverage(db, u)) in p.members
    {
      var i :| 0 <= i < |team| && team[i] == u;
      assert p.members[i] == MemberAverage(u, AddresseeAverage(db, u));
    }
    p
  }

  /** As written, a signed-in user is listed on their own team page, whether
      or not they have a company. */
  lemma TeamMembersListShowsCaller(db: Db, caller: User)
    requires caller in db.users
    ensures MemberAverage(caller, AddresseeAverage(db, caller)) in TeamMembersList(db, caller).members
  {
    assert InTeam(caller, caller);
  }

  // ---------------------------------------------------------------------------
  // The request lifecycle: request_feedback and fill_feedback
  // ---------------------------------------------------------------------------

  datatype Method = Get | Post | OtherMethod

  datatype Response =
    | JsonSuccess
    | JsonFailure(errors: string)
    | NotFound
    | ServerError
    | RedirectHome
    | RenderForm

  datatype Outcome = Outcome(db: Db, response: Response)

  /** The POST fields `request_feedback` reads. A field is None when it is
      missing; `dueDate` is also None when it is not a date. */
  datatype RequestPost = RequestPost(requestedTo: Option<UserId>, projectName: Option<string>, dueDate: Option<Date>)

  /** `request_feedback`: on POST, one new pending request from the caller
      to an existing user; any other method creates nothing and answers
      `success: False`. An unknown addressee is a 404; a missing project name
      or due date fails the insert. */
  function RequestFeedback(db: Db, caller: UserId, verb: Method, post: RequestPost): (out: Outcome)
    ensures verb != Post ==> out == Outcome(db, JsonFailure("Invalid request method"))
    ensures verb == Post && (post.requestedTo.None? || !HasUser(db.users, post.requestedTo.value)) ==>
      out == Outcome(db, NotFound)
    ensures out.response == JsonSuccess <==>
      && verb == Post
      && post.requestedTo.Some? && HasUser(db.users, post.requestedTo.value)
      && post.projectName.Some? && post.dueDate.Some?
    ensures out.response == JsonSuccess ==>
      && out.db.users == db.users
      && out.db.feedbacks == db.feedbacks
      && |out.db.requests| == |db.requests| + 1
      && out.db.requests[..|db.requests|] == db.requests
      && var r := out.db.requests[|db.requests|];
      && r.requester == caller
      && r.requestedTo == post.requestedTo.value
      && r.projectName == post.projectName.value
      && r.dueDate == post.dueDate.value
      && r.comment == None
      && r.status == Pending
    ensures out.response != JsonSuccess ==> out.db == db
    ensures Advances(db, out.db)
  {
    if verb != Post then Outcome(db, JsonFailure("Invalid request method"))
    else if post.requestedTo.None? || FindUser(db.users, post.requestedTo.value).None? then Outcome(db, NotFound)
    else if post.projectName.None? || post.dueDate.None? then Outcome(db, ServerError)
    else
      var requestedTo := FindUser(db.users, post.requestedTo.value).value;
      var r := NewRequest(caller, requestedTo.id, post.projectName.value, post.dueDate.value);
      var db' := db.(requests := db.requests + [r]);
      assert db'.requests[..|db.requests|] == db.requests;
      assert db'.feedbacks[..|db.feedbacks|] == db.feedbacks;
      Outcome(db', JsonSuccess)
  }

  /** Saving feedback `f` for request `k`: the row is appended and the
      request, and only it, becomes completed. */
  function SaveFeedback(db: Db, k: nat, f: Feedback): (db': Db)
    requires k < |db.requests|
    ensures db'.users == db.users
    ensures |db'.requests| == |db.requests|
    ensures db'.requests[k] == db.requests[k].(status := Completed)
    ensures forall j :: 0 <= j < |db.requests| && j != k ==> db'.requests[j] == db.requests[j]
    ensures |db'.feedbacks| == |db.feedbacks| + 1
    ensures db'.feedbacks[..|db.feedbacks|] == db.feedbacks
    ensures db'.feedbacks[|db.feedbacks|] == f
    ensures Advances(db, db')
  {
    var db' := db.(requests := db.requests[k := db.requests[k].(status := Completed)],
                   feedbacks := db.feedbacks + [f]);
    assert db'.feedbacks[..|db.feedbacks|] == db.feedbacks;
    db'
  }

  /** After the save, request `j` has feedback exactly when it had before or
      it is request `k`. */
  lemma SavedFeedback(db: Db, k: nat, f: Feedback, j: nat)
    requires k < |db.requests| && f.requestId == k
    ensures HasFeedback(SaveFeedback(db, k, f), j) <==> HasFeedback(db, j) || j == k
  {
    var db' := SaveFeedback(db, k, f);
    var n := |db.feedbacks|;
    assert forall i :: 0 <= i < n ==> db'.feedbacks[i] == db'.feedbacks[..n][i];
    if HasFeedback(db', j) && j != k {
      var i :| 0 <= i < |db'.feedbacks| && db'.feedbacks[i].requestId == j;
      assert i < n;
    }
    if HasFeedback(db, j) {
      var i :| 0 <= i < n && db.feedbacks[i].requestId == j;
      assert db'.feedbacks[i].requestId == j;
    }
    if j == k {
      assert db'.feedbacks[n].requestId == k;
    }
  }

  /** Saving the first feedback of a request keeps the database consistent. */
  lemma SaveFeedbackKeepsConsistent(db: Db, k: nat, f: Feedback)
    requires Consistent(db)
    requires k < |db.requests| && f.requestId == k && !HasFeedback(db, k)
    ensures Consistent(SaveFeedback(db, k, f))
  {
    var db' := SaveFeedback(db, k, f);
    var n := |db.feedbacks|;
    assert forall i :: 0 <= i < n ==> db'.feedbacks[i] == db'.feedbacks[..n][i];
    forall i, j | 0 <= i < j < |db'.feedbacks|
      ensures db'.feedbacks[i].requestId != db'.feedbacks[j].requestId
    {
      if j == n {
        assert db'.feedbacks[i] == db.feedbacks[i];
        assert !(db.feedbacks[i].requestId == k);
      }
    }
    forall j | 0 <= j < |db'.requests|
      ensures db'.requests[j].status == Completed <==> HasFeedback(db', j)
    {
      SavedFeedback(db, k, f, j);
    }
  }

  /** Request `k` exists and is addressed to `caller`: the lookup
      `get_object_or_404(FeedbackRequest, id=k, requested_to=user)`. */
  predicate Owns(db: Db, caller: UserId, k: nat) {
    k < |db.requests| && db.requests[k].requestedTo == caller
  }

  /** `fill_feedback`: only the addressee can reach the request (anyone else
      gets a 404). A valid POST saves one feedback linked to the request and
      marks it completed; an invalid form or a GET re-renders the form and
      changes nothing; a second feedback for the same request violates the
      one-to-one link and fails, changing nothing. */
  function FillFeedback(db: Db, caller: UserId, k: nat, verb: Method, form: FeedbackForm): (out: Outcome)
    ensures !Owns(db, caller, k) ==> out == Outcome(db, NotFound)
    ensures Owns(db, caller, k) && verb != Post ==> out == Outcome(db, RenderForm)
    ensures Owns(db, caller, k) && verb == Post && CleanForm(form).None? ==> out == Outcome(db, RenderForm)
    ensures Owns(db, caller, k) && verb == Post && CleanForm(form).Some? && HasFeedback(db, k) ==>
      out == Outcome(db, ServerError)
    ensures out.response == RedirectHome <==>
      Owns(db, caller, k) && verb == Post && CleanForm(form).Some? && !HasFeedback(db, k)
    ensures out.response == RedirectHome ==>
      && out.db.users == db.users
      && |out.db.requests| == |db.requests|
      && out.db.requests[k] == db.requests[k].(status := Completed)
      && (forall j :: 0 <= j < |db.requests| && j != k ==> out.db.requests[j] == db.requests[j])
      && |out.db.feedbacks| == |db.feedbacks| + 1
      && out.db.feedbacks[..|db.feedbacks|] == db.feedbacks
      && var f := out.db.feedbacks[|db.feedbacks|];
      && f.requestId == k
      && f.teamwork == f.communication == f.initiative == f.technicalSkills == f.problemSolving
         == DefaultCompetencyRating
      && FieldsValid(f.keywords, f.text)
      && f == FeedbackFromForm(k, CleanForm(form).value)
    ensures out.response != RedirectHome ==> out.db == db
    ensures Advances(db, out.db)
  {
    if !Owns(db, caller, k) then Outcome(db, NotFound)
    else if verb != Post then Outcome(db, RenderForm)
    else match CleanForm(form)
      case None => Outcome(db, RenderForm)
      case Some(c) =>
        if HasFeedback(db, k) then Outcome(db, ServerError)
        else
          Outcome(SaveFeedback(db, k, FeedbackFromForm(k, c)), RedirectHome)
  }

  /** Creating a request keeps the database consistent. */
  lemma RequestFeedbackKeepsConsistent(db: Db, caller: UserId, verb: Method, post: RequestPost)
    requires Consistent(db)
    requires HasUser(db.users, caller)
    ensures Consistent(RequestFeedback(db, caller, verb, post).db)
  {
    var out := RequestFeedback(db, caller, verb, post);
    if out.response == JsonSuccess {
      var db' := out.db;
      var n := |db.requests|;
      forall j | 0 <= j < n
        ensures db'.requests[j] == db.requests[j]
      {
        assert db'.requests[..n][j] == db'.requests[j];
      }
      forall j | 0 <= j < |db'.requests|
        ensures db'.requests[j].status == Completed <==> HasFeedback(db', j)
      {
        if j == n {
          assert !HasFeedback(db', j);
        } else {
          assert HasFeedback(db', j) == HasFeedback(db, j);
        }
      }
    }
  }

  /** Filling a request keeps the database consistent: the new feedback is the
      request's only one, and its request is now the completed one. */
  lemma FillFeedbackKeepsConsistent(db: Db, caller: UserId, k: nat, verb: Method, form: FeedbackForm)
    requires Consistent(db)
    ensures Consistent(FillFeedback(db, caller, k, verb, form).db)
  {
    if FillFeedback(db, caller, k, verb, form).response == RedirectHome {
      SaveFeedbackKeepsConsistent(db, k, FeedbackFromForm(k, CleanForm(form).value));
    }
  }

  /** Once a request is completed it cannot be filled again: under a
      consistent database its feedback exists, so every submission changes
      nothing. */
  lemma CompletedRequestIsFinal(db: Db, caller: UserId, k: nat, verb: Method, form: FeedbackForm)
    requires Consistent(db)
    requires k < |db.requests| && db.requests[k].status == Completed
    ensures FillFeedback(db, caller, k, verb, form).db == db
    ensures FillFeedback(db, caller, k, verb, form).response != RedirectHome
  {
  }

  /** A feedback saved by `fill_feedback` is completed feedback of the request's
      requester and of its addressee, so it enters both kinds of statistics. */
  lemma FilledFeedbackIsSelected(db: Db, caller: UserId, k: nat, verb: Method, form: FeedbackForm)
    requires FillFeedback(db, caller, k, verb, form).response == RedirectHome
    ensures var db' := FillFeedback(db, caller, k, verb, form).db;
      var f := db'.feedbacks[|db.feedbacks|];
      && f in Select(db', Requester(db.requests[k].requester))
      && f in Select(db', Addressee(caller))
  {
    var db' := FillFeedback(db, caller, k, verb, form).db;
    assert db'.feedbacks[|db.feedbacks|] in db'.feedbacks;
  }

  // ---------------------------------------------------------------------------
  // The results page
  // ---------------------------------------------------------------------------

  datatype ResultsPage = ResultsPage(
    overallAvgRating: real,
    receivedFeedbackCount: nat,
    allKeywords: seq<string>,
    strengths: seq<string>,
    improvements: seq<string>,
    competencies: seq<CompetencyScore>,
    companyName: string)

  /** The fixed scores the results page shows for the five competencies. */
  const PlaceholderScores: seq<real> := [9.2, 8.5, 7.8, 9.5, 8.9]

  /** The competency list of the results page: the five labels with fixed
      scores, whatever feedback exists. */
  function PlaceholderCompetencies(): (cs: seq<CompetencyScore>)
    ensures |cs| == |Competencies|
    ensures forall i :: 0 <= i < |cs| ==>
      cs[i].name == Label(Competencies[i]) && cs[i].score == PlaceholderScores[i]
  {
    seq(|Competencies|, i requires 0 <= i < |Competencies| => CompetencyScore(Label(Competencies[i]), PlaceholderScores[i]))
  }

  /** `results`: the same digest as the statistics service, but over the
      completed feedback on requests addressed to the caller, that is the
      feedback the caller wrote (the count is named "received" all the same),
      with the average rounded to one decimal. */
  function Results(db: Db, caller: User, keywordOrder: seq<string>): (p: ResultsPage)
    requires IsEnumeration(keywordOrder, AllKeywords(Select(db, Addressee(caller.id))))
    ensures var sel := Select(db, Addressee(caller.id));
      && p.receivedFeedbackCount == |sel|
      && p.overallAvgRating == Round(Mean(Ratings(sel)), OneDecimal)
      && (|sel| == 0 ==> p.overallAvgRating == 0.0 && p.allKeywords == [] && p.strengths == [] && p.improvements == [])
      && NoDup(p.allKeywords)
      && |p.allKeywords| == Min(KeywordLimit, |Distinct(AllKeywords(sel))|)
      && (forall k :: k in p.allKeywords ==> k != "" && Trimmed(k) && KeywordOfRows(k, sel))
      && |p.strengths| == Min(3, |sel|)
      && p.strengths + p.improvements == Texts(sel)[..Min(5, |Texts(sel)|)]
      && p.competencies == PlaceholderCompetencies()
      && p.companyName == if caller.profile.Some? then caller.profile.value.company else ""
  {
    var sel := Select(db, Addressee(caller.id));
    var d := Summarise(sel, keywordOrder);
    RoundZero(OneDecimal);
    ResultsPage(Round(Mean(Ratings(sel)), OneDecimal), d.count, d.keywords, d.strengths, d.improvements,
                PlaceholderCompetencies(), if caller.profile.Some? then caller.profile.value.company else "")
  }

}
