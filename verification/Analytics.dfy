/** `FeedbackAnalytics.get_user_stats`: the statistics computed over the
    completed feedback of one user. The pieces it shares with the `results`
    page (row selection, keyword extraction and de-duplication, the
    strengths/improvements excerpts) are defined here once. */
module Analytics {
  import opened Text
  import opened Numeric
  import opened Models

  // ---------------------------------------------------------------------------
  // Selecting rows
  // ---------------------------------------------------------------------------

  /** Whose feedback a query selects: by the request's requester (the
      statistics service), by its addressee (the results and team pages), or
      by an addressee among a set of users (the team total). */
  datatype Who = Requester(user: UserId) | Addressee(user: UserId) | AddresseeIn(users: set<UserId>)

  /** Row `f` belongs to a completed request matching `who`. */
  predicate Selects(db: Db, who: Who, f: Feedback) {
    && f.requestId < |db.requests|
    && var r := db.requests[f.requestId];
    && r.status == Completed
    && match who
       case Requester(u) => r.requester == u
       case Addressee(u) => r.requestedTo == u
       case AddresseeIn(us) => r.requestedTo in us
  }

  function SelectIn(db: Db, rows: seq<Feedback>, who: Who): (sel: seq<Feedback>)
    ensures |sel| <= |rows|
    ensures forall f :: f in sel <==> f in rows && Selects(db, who, f)
  {
    if |rows| == 0 then []
    else
      var init := SelectIn(db, rows[..|rows| - 1], who);
      var last := rows[|rows| - 1];
      assert rows == rows[..|rows| - 1] + [last];
      if Selects(db, who, last) then init + [last] else init
  }

  /** `Feedback.objects.filter(feedback_request__<who>, feedback_request__status='completed')`,
      in table order. */
  function Select(db: Db, who: Who): (sel: seq<Feedback>)
    ensures forall f :: f in sel <==> f in db.feedbacks && Selects(db, who, f)
  {
    SelectIn(db, db.feedbacks, who)
  }

  /** The positions of the rows among the first `n` that the query matches. */
  function MatchingRows(db: Db, who: Who, n: nat): (ps: set<nat>)
    requires n <= |db.feedbacks|
    ensures forall i: nat :: i in ps <==> i < n && Selects(db, who, db.feedbacks[i])
  {
    if n == 0 then {}
    else
      var before := MatchingRows(db, who, n - 1);
      if Selects(db, who, db.feedbacks[n - 1]) then before + {n - 1} else before
  }

  /** The query returns exactly one row per matching table row, so its size
      is the number of completed feedback rows for `who`. */
  lemma {:induction false} SelectCount(db: Db, who: Who, n: nat)
    requires n <= |db.feedbacks|
    ensures |SelectIn(db, db.feedbacks[..n], who)| == |MatchingRows(db, who, n)|
  {
    if n == 0 {
    } else {
      SelectCount(db, who, n - 1);
      var rows := db.feedbacks[..n];
      assert rows[..n - 1] == db.feedbacks[..n - 1];
      assert rows[n - 1] == db.feedbacks[n - 1];
      SelectStep(db, rows, who);
      MatchingStep(db, who, n);
    }
  }

  lemma SelectStep(db: Db, rows: seq<Feedback>, who: Who)
    requires |rows| > 0
    ensures |SelectIn(db, rows, who)| ==
      |SelectIn(db, rows[..|rows| - 1], who)| + if Selects(db, who, rows[|rows| - 1]) then 1 else 0
  {
  }

  lemma MatchingStep(db: Db, who: Who, n: nat)
    requires 0 < n <= |db.feedbacks|
    ensures |MatchingRows(db, who, n)| ==
      |MatchingRows(db, who, n - 1)| + if Selects(db, who, db.feedbacks[n - 1]) then 1 else 0
  {
    assert n - 1 !in MatchingRows(db, who, n - 1);
  }

  function Ratings(fs: seq<Feedback>): (xs: seq<int>)
    ensures |xs| == |fs|
    ensures forall i :: 0 <= i < |fs| ==> xs[i] == fs[i].rating
  {
    seq(|fs|, i requires 0 <= i < |fs| => fs[i].rating)
  }

  function Texts(fs: seq<Feedback>): (ts: seq<string>)
    ensures |ts| == |fs|
    ensures forall i :: 0 <= i < |fs| ==> ts[i] == fs[i].text
  {
    seq(|fs|, i requires 0 <= i < |fs| => fs[i].text)
  }

  // ---------------------------------------------------------------------------
  // Keywords
  // ---------------------------------------------------------------------------

  /** `k` is the stripped form of one of `parts`, and not empty. */
  ghost predicate StripsFrom(k: string, parts: seq<string>) {
    k != "" && exists p :: p in parts && k == Strip(p)
  }

  /** `[kw.strip() for kw in parts if kw.strip()]`. */
  function StrippedPieces(parts: seq<string>): (kws: seq<string>)
    ensures |kws| <= |parts|
    ensures forall i :: 0 <= i < |kws| ==> kws[i] != "" && Trimmed(kws[i])
    ensures (forall j :: 0 <= j < |parts| ==> Comma !in parts[j]) ==>
      forall i :: 0 <= i < |kws| ==> Comma !in kws[i]
  {
    if |parts| == 0 then []
    else
      var rest := StrippedPieces(parts[1..]);
      var k := Strip(parts[0]);
      StripKeepsOut(parts[0], Comma);
      if k != "" then [k] + rest else rest
  }

  /** A string is kept exactly when it is the non-empty strip of some piece. */
  lemma {:induction false} StrippedPiecesExactly(parts: seq<string>)
    ensures forall k :: k in StrippedPieces(parts) <==> StripsFrom(k, parts)
  {
    if |parts| > 0 {
      StrippedPiecesExactly(parts[1..]);
      assert forall p :: p in parts <==> p == parts[0] || p in parts[1..];
    }
  }

  /** The keywords of one `keywords` field: its comma-separated pieces,
      stripped, empty ones dropped. */
  function KeywordsOf(raw: string): (kws: seq<string>)
    ensures forall k :: k in kws ==> k != "" && Trimmed(k) && Comma !in k
  {
    StrippedPieces(Split(raw))
  }

  /** The keywords of a field are exactly the non-empty stripped forms of its
      comma-separated pieces. */
  lemma KeywordsOfExactly(raw: string)
    ensures forall k :: k in KeywordsOf(raw) <==> StripsFrom(k, Split(raw))
  {
    StrippedPiecesExactly(Split(raw));
  }

  /** Every keyword of any row is non-empty, stripped and comma-free. */
  lemma {:induction false} RowKeywordShape(k: string, fs: seq<Feedback>)
    requires KeywordOfRows(k, fs)
    ensures k != "" && Trimmed(k) && Comma !in k
    decreases |fs|
  {
    if k !in KeywordsOf(fs[|fs| - 1].keywords) {
      RowKeywordShape(k, fs[..|fs| - 1]);
    }
  }

  /** Stripping adds no character. */
  lemma StripKeepsOut(s: string, c: char)
    ensures c !in s ==> c !in Strip(s)
  {
    var i, j :| 0 <= i <= j <= |s| && Strip(s) == s[i..j];
    assert forall m :: 0 <= m < j - i ==> s[i..j][m] == s[i + m];
  }

  /** Re-extracting the keywords from their comma-joined list gives the same
      list: extraction is idempotent. */
  lemma KeywordsIdempotent(raw: string)
    ensures KeywordsOf(Join(KeywordsOf(raw))) == KeywordsOf(raw)
  {
    var kws := KeywordsOf(raw);
    if |kws| == 0 {
      assert Split("") == [""];
      assert Strip("") == "";
    } else {
      SplitJoin(kws);
      StrippedPiecesFixed(kws);
    }
  }

  /** Pieces that are already non-empty and stripped pass through unchanged. */
  lemma {:induction false} StrippedPiecesFixed(kws: seq<string>)
    requires forall i :: 0 <= i < |kws| ==> kws[i] != "" && Trimmed(kws[i])
    ensures StrippedPieces(kws) == kws
  {
    if |kws| > 0 {
      StripTrimmed(kws[0]);
      StrippedPiecesFixed(kws[1..]);
      assert kws == [kws[0]] + kws[1..];
    }
  }

  /** `k` is a keyword of one of the rows: of the last one or of an earlier
      one. */
  ghost predicate KeywordOfRows(k: string, fs: seq<Feedback>)
    decreases |fs|
  {
    |fs| > 0 && (k in KeywordsOf(fs[|fs| - 1].keywords) || KeywordOfRows(k, fs[..|fs| - 1]))
  }

  /** `KeywordOfRows` is the same as being a keyword of some row. */
  lemma KeywordOfRowsExists(k: string, fs: seq<Feedback>)
    ensures KeywordOfRows(k, fs) <==> exists i :: 0 <= i < |fs| && k in KeywordsOf(fs[i].keywords)
  {
    if KeywordOfRows(k, fs) {
      var i := KeywordRow(k, fs);
    }
    if exists i :: 0 <= i < |fs| && k in KeywordsOf(fs[i].keywords) {
      var i :| 0 <= i < |fs| && k in KeywordsOf(fs[i].keywords);
      RowKeyword(k, fs, i);
    }
  }

  /** A row of which `k` is a keyword. */
  lemma {:induction false} KeywordRow(k: string, fs: seq<Feedback>) returns (i: nat)
    requires KeywordOfRows(k, fs)
    ensures i < |fs| && k in KeywordsOf(fs[i].keywords)
    decreases |fs|
  {
    var n := |fs| - 1;
    if k in KeywordsOf(fs[n].keywords) {
      i := n;
    } else {
      var init := fs[..n];
      i := KeywordRow(k, init);
      assert init[i] == fs[i];
    }
  }

  /** A keyword of row `i` is a keyword of the rows. */
  lemma {:induction false} RowKeyword(k: string, fs: seq<Feedback>, i: nat)
    requires i < |fs| && k in KeywordsOf(fs[i].keywords)
    ensures KeywordOfRows(k, fs)
    decreases |fs|
  {
    if i < |fs| - 1 {
      var init := fs[..|fs| - 1];
      assert init[i] == fs[i];
      RowKeyword(k, init, i);
    }
  }

  /** All keywords of the rows, concatenated in row order (the loop that
      extends `all_keywords`). */
  function AllKeywords(fs: seq<Feedback>): (kws: seq<string>)
    ensures forall k :: k in kws <==> KeywordOfRows(k, fs)
  {
    if |fs| == 0 then []
    else AllKeywords(fs[..|fs| - 1]) + KeywordsOf(fs[|fs| - 1].keywords)
  }

  /** The loop that gathers `all_keywords`, one row at a time. */
  method CollectKeywords(fs: seq<Feedback>) returns (all: seq<string>)
    ensures all == AllKeywords(fs)
    ensures forall k :: k in all ==> k != "" && Trimmed(k)
  {
    all := [];
    var i := 0;
    while i < |fs|
      invariant 0 <= i <= |fs|
      invariant all == AllKeywords(fs[..i])
    {
      assert fs[..i + 1][..i] == fs[..i];
      assert fs[..i + 1][i] == fs[i];
      all := all + KeywordsOf(fs[i].keywords);
      i := i + 1;
    }
    assert fs[..|fs|] == fs;
    forall k | k in all
      ensures k != "" && Trimmed(k)
    {
      RowKeywordShape(k, fs);
    }
  }

  predicate NoDup<T(==)>(xs: seq<T>) {
    forall i, j :: 0 <= i < j < |xs| ==> xs[i] != xs[j]
  }

  function Distinct<T(==)>(xs: seq<T>): set<T> {
    set x | x in xs
  }

  /** `order` lists every element of `xs` exactly once: it is one possible
      iteration order of `set(xs)`. */
  predicate IsEnumeration<T(==,!new)>(order: seq<T>, xs: seq<T>) {
    NoDup(order) && (forall x :: x in order ==> x in xs) && (forall x :: x in xs ==> x in order)
  }

  /** A duplicate-free sequence has as many distinct elements as entries. */
  lemma {:induction false} NoDupDistinct<T>(xs: seq<T>)
    requires NoDup(xs)
    ensures |Distinct(xs)| == |xs|
  {
    if |xs| > 0 {
      var init := xs[..|xs| - 1];
      NoDupDistinct(init);
      assert xs == init + [xs[|xs| - 1]];
      assert Distinct(xs) == Distinct(init) + {xs[|xs| - 1]};
      assert xs[|xs| - 1] !in Distinct(init);
    } else {
      assert Distinct(xs) == {};
    }
  }

  /** Every enumeration of `set(xs)` has `|set(xs)|` entries. */
  lemma EnumerationLength<T(!new)>(order: seq<T>, xs: seq<T>)
    requires IsEnumeration(order, xs)
    ensures |order| == |Distinct(xs)|
  {
    NoDupDistinct(order);
    assert Distinct(order) == Distinct(xs);
  }

  /** First-occurrence de-duplication: one enumeration of `set(xs)`, so every
      sequence has one and the statistics are defined for every input. */
  function Dedup<T(==,!new)>(xs: seq<T>): (r: seq<T>)
    ensures IsEnumeration(r, xs)
  {
    if |xs| == 0 then []
    else
      var init := xs[..|xs| - 1];
      var last := xs[|xs| - 1];
      var r := Dedup(init);
      assert xs == init + [last];
      if last in r then r else r + [last]
  }

  /** At most this many keywords are reported. */
  const KeywordLimit: nat := 7

  // ---------------------------------------------------------------------------
  // The part shared with the results page
  // ---------------------------------------------------------------------------

  /** Python's `s[i:j]` for non-negative bounds. */
  function Slice<T>(s: seq<T>, i: nat, j: nat): (r: seq<T>)
    ensures |r| == if Min(i, |s|) <= Min(j, |s|) then Min(j, |s|) - Min(i, |s|) else 0
    ensures forall k :: 0 <= k < |r| ==> r[k] == s[i + k]
  {
    var a := Min(i, |s|);
    var b := Min(j, |s|);
    if a <= b then s[a..b] else []
  }

  datatype Digest = Digest(count: nat, keywords: seq<string>, strengths: seq<string>, improvements: seq<string>)

  /** The count, the first seven distinct keywords in set iteration order
      `keywordOrder`, and the first three / next two feedback texts. */
  function Summarise(sel: seq<Feedback>, keywordOrder: seq<string>): (d: Digest)
    requires IsEnumeration(keywordOrder, AllKeywords(sel))
    ensures d.count == |sel|
    ensures NoDup(d.keywords)
    ensures |d.keywords| == Min(KeywordLimit, |Distinct(AllKeywords(sel))|)
    ensures forall k :: k in d.keywords ==> k != "" && Trimmed(k) && Comma !in k && KeywordOfRows(k, sel)
    ensures |d.strengths| == Min(3, |sel|)
    ensures forall i :: 0 <= i < |d.strengths| ==> d.strengths[i] == sel[i].text
    ensures |d.improvements| == if |sel| <= 3 then 0 else Min(5, |sel|) - 3
    ensures forall i :: 0 <= i < |d.improvements| ==> d.improvements[i] == sel[3 + i].text
    ensures d.strengths + d.improvements == Texts(sel)[..Min(5, |Texts(sel)|)]
  {
    var keywords := FirstKeywords(sel, keywordOrder);
    var texts := Texts(sel);
    var strengths := Slice(texts, 0, 3);
    var improvements := Slice(texts, 3, 5);
    ExcerptsArePrefix(texts);
    Digest(|sel|, keywords, strengths, improvements)
  }

  /** `list(set(all_keywords))[:7]` for the set iteration order `keywordOrder`. */
  function FirstKeywords(sel: seq<Feedback>, keywordOrder: seq<string>): (kws: seq<string>)
    requires IsEnumeration(keywordOrder, AllKeywords(sel))
    ensures NoDup(kws)
    ensures |kws| == Min(KeywordLimit, |Distinct(AllKeywords(sel))|)
    ensures forall k :: k in kws ==> k != "" && Trimmed(k) && Comma !in k && KeywordOfRows(k, sel)
  {
    EnumerationLength(keywordOrder, AllKeywords(sel));
    var kws := keywordOrder[..Min(KeywordLimit, |keywordOrder|)];
    assert forall k :: k in kws ==> KeywordOfRows(k, sel) && k != "" && Trimmed(k) && Comma !in k by {
      forall k | k in kws
        ensures KeywordOfRows(k, sel) && k != "" && Trimmed(k) && Comma !in k
      {
        assert k in keywordOrder;
        RowKeywordShape(k, sel);
      }
    }
    kws
  }

  /** The first three texts followed by the next two are the first five. */
  lemma ExcerptsArePrefix(texts: seq<string>)
    ensures Slice(texts, 0, 3) + Slice(texts, 3, 5) == texts[..Min(5, |texts|)]
  {
  }

  // ---------------------------------------------------------------------------
  // Competencies and trainings
  // ---------------------------------------------------------------------------

  datatype Competency = Teamwork | Communication | Initiative | TechnicalSkills | ProblemSolving

  /** The fixed order the statistics list the competencies in. */
  const Competencies: seq<Competency> := [Teamwork, Communication, Initiative, TechnicalSkills, ProblemSolving]

  /** The name each competency is reported under. */
  function Label(c: Competency): string {
    match c
    case Teamwork => "Komandinis Darbas"
    case Communication => "Komunikacija"
    case Initiative => "Iniciatyvumas"
    case TechnicalSkills => "Techninės Žinios"
    case ProblemSolving => "Problemų Sprendimas"
  }

  /** The course recommended for a weak competency. */
  function Course(c: Competency): string {
    match c
    case Teamwork => "Mokymai apie efektyvų komandinį darbą"
    case Communication => "Viešojo kalbėjimo ir komunikacijos įgūdžių mokymai"
    case Initiative => "Proaktyvumo ir iniciatyvumo skatinimo seminaras"
    case TechnicalSkills => "Specializuoti techniniai kursai pagal Jūsų sritį"
    case ProblemSolving => "Kritinio mąstymo ir problemų sprendimo dirbtuvės"
  }

  /** `training_map`: competency name to course. */
  const TrainingMap: map<string, string> :=
    map[Label(Teamwork) := Course(Teamwork),
        Label(Communication) := Course(Communication),
        Label(Initiative) := Course(Initiative),
        Label(TechnicalSkills) := Course(TechnicalSkills),
        Label(ProblemSolving) := Course(ProblemSolving)]

  /** The course `training_map.get` falls back to for an unknown name. */
  const FallbackTraining: string := "Bendrieji tobulinimosi kursai"

  /** A competency scoring below this gets a training recommendation. */
  const Threshold: real := 7.0

  /** Python's `m.get(key, default)`. */
  function Get(m: map<string, string>, key: string, default: string): string {
    if key in m then m[key] else default
  }

  /** Every competency name is a key of the training map, mapped to its own
      course, so the fallback course is never chosen for one. */
  lemma TrainingMapCoversLabels(c: Competency)
    ensures Label(c) in TrainingMap
    ensures Get(TrainingMap, Label(c), FallbackTraining) == Course(c) != FallbackTraining
  {
  }

  function RatingOf(f: Feedback, c: Competency): int {
    match c
    case Teamwork => f.teamwork
    case Communication => f.communication
    case Initiative => f.initiative
    case TechnicalSkills => f.technicalSkills
    case ProblemSolving => f.problemSolving
  }

  /** One rating column of the rows. */
  function Column(fs: seq<Feedback>, c: Competency): (xs: seq<int>)
    ensures |xs| == |fs|
    ensures forall i :: 0 <= i < |fs| ==> xs[i] == RatingOf(fs[i], c)
  {
    seq(|fs|, i requires 0 <= i < |fs| => RatingOf(fs[i], c))
  }

  datatype CompetencyScore = CompetencyScore(name: string, score: real)

  /** The five competency entries, in the fixed order, each scored by the
      two-decimal rounded mean of its column (0 when there are no rows). */
  function Scores(sel: seq<Feedback>): (cs: seq<CompetencyScore>)
    ensures |cs| == |Competencies| == 5
    ensures forall i :: 0 <= i < 5 ==>
      && cs[i].name == Label(Competencies[i])
      && cs[i].score == Round(Mean(Column(sel, Competencies[i])), TwoDecimals)
  {
    seq(5, i requires 0 <= i < 5 =>
      CompetencyScore(Label(Competencies[i]), Round(Mean(Column(sel, Competencies[i])), TwoDecimals)))
  }

  /** With no rows every competency scores 0; with ratings in `[lo, hi]` every
      score stays in `[lo, hi]`. */
  lemma ScoresBounds(sel: seq<Feedback>, lo: int, hi: int)
    requires forall c :: Within(Column(sel, c), lo, hi)
    ensures |sel| == 0 ==> forall i :: 0 <= i < 5 ==> Scores(sel)[i].score == 0.0
    ensures |sel| > 0 ==> forall i :: 0 <= i < 5 ==> lo as real <= Scores(sel)[i].score <= hi as real
  {
    if |sel| > 0 {
      forall i | 0 <= i < 5
        ensures lo as real <= Scores(sel)[i].score <= hi as real
      {
        var col := Column(sel, Competencies[i]);
        MeanBounds(col, lo, hi);
        RoundWithin(Mean(col), TwoDecimals, lo, hi);
      }
    }
  }

  datatype Training = Training(competency: string, training: string)

  /** The recommendation for one scored competency. */
  function TrainingFor(c: CompetencyScore, m: map<string, string>): Training {
    Training(c.name, Get(m, c.name, FallbackTraining))
  }

  /** The positions, in increasing order, of the entries from `from` on that
      score below the threshold. */
  function WeakFrom(cs: seq<CompetencyScore>, from: nat): (ps: seq<nat>)
    requires from <= |cs|
    ensures forall k :: 0 <= k < |ps| ==> from <= ps[k] < |cs| && cs[ps[k]].score < Threshold
    decreases |cs| - from
  {
    if from == |cs| then []
    else if cs[from].score < Threshold then [from] + WeakFrom(cs, from + 1)
    else WeakFrom(cs, from + 1)
  }

  /** The weak positions come in increasing order. */
  lemma {:induction false} WeakFromIncreasing(cs: seq<CompetencyScore>, from: nat)
    requires from <= |cs|
    ensures forall k, l :: 0 <= k < l < |WeakFrom(cs, from)| ==> WeakFrom(cs, from)[k] < WeakFrom(cs, from)[l]
    decreases |cs| - from
  {
    if from < |cs| {
      WeakFromIncreasing(cs, from + 1);
      var ps := WeakFrom(cs, from + 1);
      if cs[from].score < Threshold {
        var qs := [from] + ps;
        assert WeakFrom(cs, from) == qs;
        forall k, l | 0 <= k < l < |qs|
          ensures qs[k] < qs[l]
        {
          assert qs[l] == ps[l - 1];
          if k > 0 {
            assert qs[k] == ps[k - 1];
          }
        }
      }
    }
  }

  /** Every position from `from` on that scores below the threshold is among
      the weak positions. */
  lemma {:induction false} WeakFromComplete(cs: seq<CompetencyScore>, from: nat)
    requires from <= |cs|
    ensures forall i :: from <= i < |cs| && cs[i].score < Threshold ==> i in WeakFrom(cs, from)
    decreases |cs| - from
  {
    if from < |cs| {
      WeakFromComplete(cs, from + 1);
      if cs[from].score < Threshold {
        assert WeakFrom(cs, from) == [from] + WeakFrom(cs, from + 1);
      }
    }
  }

  /** The loop over the competencies from `from` on that appends, for each
      weak one, its name and the course `m` maps it to: the recommendations
      follow the weak entries, in order. */
  function RecommendFrom(cs: seq<CompetencyScore>, from: nat, m: map<string, string>): (ts: seq<Training>)
    requires from <= |cs|
    ensures |ts| == |WeakFrom(cs, from)|
    ensures forall k :: 0 <= k < |ts| ==> ts[k] == TrainingFor(cs[WeakFrom(cs, from)[k]], m)
    decreases |cs| - from
  {
    if from == |cs| then []
    else if cs[from].score < Threshold then
      [TrainingFor(cs[from], m)] + RecommendFrom(cs, from + 1, m)
    else RecommendFrom(cs, from + 1, m)
  }

  // ---------------------------------------------------------------------------
  // get_user_stats
  // ---------------------------------------------------------------------------

  datatype UserStats = UserStats(
    overallAvgRating: real,
    receivedFeedbackCount: nat,
    allKeywords: seq<string>,
    competencies: seq<CompetencyScore>,
    strengths: seq<string>,
    improvements: seq<string>,
    recommendedTrainings: seq<Training>)

  /** The recommendation for competency `i` of the fixed order. */
  function CourseAt(i: nat): Training
    requires i < 5
  {
    Training(Label(Competencies[i]), Course(Competencies[i]))
  }

  /** `recommended_trainings` for the scores `Scores(sel)`: exactly the
      competencies scoring below the threshold, each with its own course. */
  function Recommendations(sel: seq<Feedback>): (ts: seq<Training>)
    ensures forall t :: t in ts ==> exists i :: 0 <= i < 5 && Scores(sel)[i].score < Threshold && t == CourseAt(i)
    ensures forall i :: 0 <= i < 5 && Scores(sel)[i].score < Threshold ==> CourseAt(i) in ts
    ensures forall t :: t in ts ==> t.training != FallbackTraining
  {
    var cs := Scores(sel);
    TrainingMapMapsLabels();
    LabelledRecommendations(cs, TrainingMap);
    RecommendFrom(cs, 0, TrainingMap)
  }

  /** The recommendations follow the fixed competency order: the `k`-th is
      the course of competency `ps[k]`, and the positions `ps` increase. */
  lemma RecommendationsInOrder(sel: seq<Feedback>) returns (ps: seq<nat>)
    ensures |ps| == |Recommendations(sel)|
    ensures forall k :: 0 <= k < |ps| ==> ps[k] < 5 && Recommendations(sel)[k] == CourseAt(ps[k])
    ensures forall k, l :: 0 <= k < l < |ps| ==> ps[k] < ps[l]
  {
    TrainingMapMapsLabels();
    ps := RecommendInOrder(Scores(sel), TrainingMap);
  }

  /** For scores under their own names, `RecommendFrom` lists the courses of
      the weak positions, which increase. */
  lemma RecommendInOrder(cs: seq<CompetencyScore>, m: map<string, string>) returns (ps: seq<nat>)
    requires MapsLabels(m)
    requires |cs| == 5
    requires forall i :: 0 <= i < 5 ==> cs[i].name == Label(Competencies[i])
    ensures |ps| == |RecommendFrom(cs, 0, m)|
    ensures forall k :: 0 <= k < |ps| ==> ps[k] < 5 && RecommendFrom(cs, 0, m)[k] == CourseAt(ps[k])
    ensures forall k, l :: 0 <= k < l < |ps| ==> ps[k] < ps[l]
  {
    ps := WeakFrom(cs, 0);
    WeakFromIncreasing(cs, 0);
    LabelledCourses(cs, m);
  }

  /** `m` sends every competency name to that competency's course. */
  predicate MapsLabels(m: map<string, string>) {
    forall c :: Get(m, Label(c), FallbackTraining) == Course(c)
  }

  /** `training_map` sends every competency name to its course. */
  lemma TrainingMapMapsLabels()
    ensures MapsLabels(TrainingMap)
  {
    forall c
      ensures Get(TrainingMap, Label(c), FallbackTraining) == Course(c)
    {
      TrainingMapCoversLabels(c);
    }
  }

  /** For the five competencies scored under their own names, the loop
      recommends exactly the courses of those scoring below the threshold,
      never the fallback course. */
  lemma LabelledRecommendations(cs: seq<CompetencyScore>, m: map<string, string>)
    requires MapsLabels(m)
    requires |cs| == 5
    requires forall i :: 0 <= i < 5 ==> cs[i].name == Label(Competencies[i])
    ensures forall t :: t in RecommendFrom(cs, 0, m) ==> exists i :: 0 <= i < 5 && cs[i].score < Threshold && t == CourseAt(i)
    ensures forall i :: 0 <= i < 5 && cs[i].score < Threshold ==> CourseAt(i) in RecommendFrom(cs, 0, m)
    ensures forall t :: t in RecommendFrom(cs, 0, m) ==> t.training != FallbackTraining
  {
    var ts := RecommendFrom(cs, 0, m);
    LabelledCourses(cs, m);
    RecommendExactly(cs, m);
    CoursesNotFallback();
    forall t | t in ts
      ensures exists i :: 0 <= i < 5 && cs[i].score < Threshold && t == CourseAt(i)
    {
      var i :| 0 <= i < |cs| && cs[i].score < Threshold && t == TrainingFor(cs[i], m);
      assert t == CourseAt(i);
    }
  }

  /** No competency's course is the fallback text. */
  lemma CoursesNotFallback()
    ensures forall i :: 0 <= i < 5 ==> CourseAt(i).training != FallbackTraining
  {
    forall i | 0 <= i < 5
      ensures CourseAt(i).training != FallbackTraining
    {
      TrainingMapCoversLabels(Competencies[i]);
    }
  }

  /** Every recommendation comes from a weak entry, and every weak entry is
      recommended. */
  lemma RecommendExactly(cs: seq<CompetencyScore>, m: map<string, string>)
    ensures forall t :: t in RecommendFrom(cs, 0, m) ==>
      exists i :: 0 <= i < |cs| && cs[i].score < Threshold && t == TrainingFor(cs[i], m)
    ensures forall i :: 0 <= i < |cs| && cs[i].score < Threshold ==> TrainingFor(cs[i], m) in RecommendFrom(cs, 0, m)
  {
    RecommendedAreWeak(cs, m);
    WeakAreRecommended(cs, m);
  }

  lemma RecommendedAreWeak(cs: seq<CompetencyScore>, m: map<string, string>)
    ensures forall t :: t in RecommendFrom(cs, 0, m) ==>
      exists i :: 0 <= i < |cs| && cs[i].score < Threshold && t == TrainingFor(cs[i], m)
  {
    var ts := RecommendFrom(cs, 0, m);
    var ps := WeakFrom(cs, 0);
    forall t | t in ts
      ensures exists i :: 0 <= i < |cs| && cs[i].score < Threshold && t == TrainingFor(cs[i], m)
    {
      var k :| 0 <= k < |ts| && ts[k] == t;
      assert t == TrainingFor(cs[ps[k]], m);
    }
  }

  lemma WeakAreRecommended(cs: seq<CompetencyScore>, m: map<string, string>)
    ensures forall i :: 0 <= i < |cs| && cs[i].score < Threshold ==> TrainingFor(cs[i], m) in RecommendFrom(cs, 0, m)
  {
    var ts := RecommendFrom(cs, 0, m);
    var ps := WeakFrom(cs, 0);
    WeakFromComplete(cs, 0);
    forall i | 0 <= i < |cs| && cs[i].score < Threshold
      ensures TrainingFor(cs[i], m) in ts
    {
      var k :| 0 <= k < |ps| && ps[k] == i;
      assert ts[k] == TrainingFor(cs[i], m);
    }
  }

  /** Scored under their own names, the competencies look up their own courses. */
  lemma LabelledCourses(cs: seq<CompetencyScore>, m: map<string, string>)
    requires MapsLabels(m)
    requires |cs| == 5
    requires forall i :: 0 <= i < 5 ==> cs[i].name == Label(Competencies[i])
    ensures forall i :: 0 <= i < 5 ==> TrainingFor(cs[i], m) == CourseAt(i)
  {
  }

  /** The statistics of `user`: only completed feedback on requests the user
      made contributes. `keywordOrder` is the iteration order of the keyword
      set, which the source leaves to Python's hashing. */
  function GetUserStats(db: Db, user: UserId, keywordOrder: seq<string>): (s: UserStats)
    requires IsEnumeration(keywordOrder, AllKeywords(Select(db, Requester(user))))
    ensures var sel := Select(db, Requester(user));
      && s.receivedFeedbackCount == |sel|
      && s.overallAvgRating == Round(Mean(Ratings(sel)), TwoDecimals)
      && (|sel| == 0 ==> s.overallAvgRating == 0.0)
      && NoDup(s.allKeywords)
      && |s.allKeywords| == Min(KeywordLimit, |Distinct(AllKeywords(sel))|)
      && (forall k :: k in s.allKeywords ==> k != "" && Trimmed(k) && KeywordOfRows(k, sel))
      && s.strengths + s.improvements == Texts(sel)[..Min(5, |Texts(sel)|)]
      && |s.strengths| == Min(3, |sel|)
      && s.competencies == Scores(sel)
      && s.recommendedTrainings == Recommendations(sel)
  {
    var sel := Select(db, Requester(user));
    var d := Summarise(sel, keywordOrder);
    RoundZero(TwoDecimals);
    UserStats(Round(Mean(Ratings(sel)), TwoDecimals), d.count, d.keywords, Scores(sel),
              d.strengths, d.improvements, Recommendations(sel))
  }

  /** With no completed feedback: average 0, count 0, no keywords, strengths
      or improvements, and every competency's course recommended, in order. */
  lemma NoFeedbackStats(db: Db, user: UserId, keywordOrder: seq<string>)
    requires Select(db, Requester(user)) == []
    requires IsEnumeration(keywordOrder, AllKeywords(Select(db, Requester(user))))
    ensures var s := GetUserStats(db, user, keywordOrder);
      && s.overallAvgRating == 0.0
      && s.receivedFeedbackCount == 0
      && s.allKeywords == [] && s.strengths == [] && s.improvements == []
      && |s.recommendedTrainings| == 5
      && (forall k :: 0 <= k < 5 ==> s.recommendedTrainings[k] == CourseAt(k))
  {
    NoFeedbackRecommendations(Select(db, Requester(user)));
  }

  /** With no rows every competency scores 0 and all five courses are
      recommended, in the fixed order. */
  lemma NoFeedbackRecommendations(sel: seq<Feedback>)
    requires sel == []
    ensures |Recommendations(sel)| == 5
    ensures forall k :: 0 <= k < 5 ==> Recommendations(sel)[k] == CourseAt(k)
  {
    ScoresBounds(sel, 0, 0);
    TrainingMapMapsLabels();
    AllWeakRecommendations(Scores(sel), TrainingMap);
  }

  /** When all five competencies, scored under their own names, are below the
      threshold, the loop recommends all five courses in competency order. */
  lemma AllWeakRecommendations(cs: seq<CompetencyScore>, m: map<string, string>)
    requires MapsLabels(m)
    requires |cs| == 5
    requires forall i :: 0 <= i < 5 ==> cs[i].name == Label(Competencies[i]) && cs[i].score < Threshold
    ensures |RecommendFrom(cs, 0, m)| == 5
    ensures forall k :: 0 <= k < 5 ==> RecommendFrom(cs, 0, m)[k] == CourseAt(k)
  {
    var ps := WeakFrom(cs, 0);
    WeakFromIncreasing(cs, 0);
    WeakFromComplete(cs, 0);
    WeakAll(ps);
    LabelledCourses(cs, m);
    var ts := RecommendFrom(cs, 0, m);
    forall k | 0 <= k < 5
      ensures ts[k] == CourseAt(k)
    {
      assert ps[k] == k;
      assert ts[k] == TrainingFor(cs[k], m);
    }
  }

  /** A strictly increasing list of positions below 5 containing all of them
      is `[0, 1, 2, 3, 4]`. */
  lemma WeakAll(ps: seq<nat>)
    requires forall k :: 0 <= k < |ps| ==> ps[k] < 5
    requires forall k, l :: 0 <= k < l < |ps| ==> ps[k] < ps[l]
    requires forall i :: 0 <= i < 5 ==> i in ps
    ensures |ps| == 5
    ensures forall k :: 0 <= k < 5 ==> ps[k] == k
  {
    SubsetCard(ps);
    if |ps| > 5 {
      IncreasingBound(ps, 5);
    }
    IncreasingBound(ps, 0);
    IncreasingBound(ps, 1);
    IncreasingBound(ps, 2);
    IncreasingBound(ps, 3);
    IncreasingBound(ps, 4);
  }

  lemma SubsetCard(ps: seq<nat>)
    requires forall i :: 0 <= i < 5 ==> i in ps
    ensures |ps| >= 5
  {
    assert {0, 1, 2, 3, 4} <= Distinct(ps);
    DistinctAtMost(ps);
  }

  lemma {:induction false} DistinctAtMost<T>(xs: seq<T>)
    ensures |Distinct(xs)| <= |xs|
  {
    if |xs| > 0 {
      var init := xs[..|xs| - 1];
      DistinctAtMost(init);
      assert xs == init + [xs[|xs| - 1]];
      assert Distinct(xs) == Distinct(init) + {xs[|xs| - 1]};
    } else {
      assert Distinct(xs) == {};
    }
  }

  /** In a strictly increasing list of naturals, entry `k` is at least `k`. */
  lemma {:induction false} IncreasingBound(ps: seq<nat>, k: nat)
    requires forall a, b :: 0 <= a < b < |ps| ==> ps[a] < ps[b]
    requires k < |ps|
    ensures ps[k] >= k
  {
    if k > 0 {
      IncreasingBound(ps, k - 1);
    }
  }

  /** Feedback that carries the default competency ratings (all that the
      feedback form can create) gets every course recommended: a score of 5
      stays below the threshold of 7. */
  lemma DefaultRatingsRecommendAll(sel: seq<Feedback>)
    requires forall f :: f in sel ==>
      f.teamwork == f.communication == f.initiative == f.technicalSkills == f.problemSolving == DefaultCompetencyRating
    ensures forall i :: 0 <= i < 5 ==> CourseAt(i) in Recommendations(sel)
  {
    forall c
      ensures Within(Column(sel, c), DefaultCompetencyRating, DefaultCompetencyRating)
    {
      assert forall i :: 0 <= i < |sel| ==> sel[i] in sel;
    }
    ScoresBounds(sel, DefaultCompetencyRating, DefaultCompetencyRating);
  }

  /** Four completed rows rated 2, 4, 4 and 6 average to 4.0. */
  lemma ExampleAverage(fs: seq<Feedback>)
    requires Ratings(fs) == [2, 4, 4, 6]
    ensures Round(Mean(Ratings(fs)), TwoDecimals) == 4.0
  {
    var xs := [2, 4, 4, 6];
    assert xs[..3] == [2, 4, 4];
    assert [2, 4, 4][..2] == [2, 4];
    assert [2, 4][..1] == [2];
    assert [2][..0] == [];
    assert Sum(xs) == 16;
    assert Mean(xs) == 4.0;
  }
}
