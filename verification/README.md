# feedbackas in Dafny

A model of the core of `feedbackas`, a Django application for peer feedback.
One employee asks a colleague for feedback on a project, the colleague fills in
a form, and both sides then see aggregated statistics. The model covers:

- **Feedback statistics.** `FeedbackAnalytics.get_user_stats` and the
  `results` page, over completed feedback. The statistics service selects
  rows whose request the user *made*. The results page selects rows whose
  request was *addressed to* the user. The statistics are:
  - the overall average rating;
  - the five competency averages;
  - the extracted, de-duplicated keywords (at most seven);
  - the first three texts as strengths and the next two as improvements;
  - a training course for every competency scoring below 7.
- **Team selection.** `get_team_members` lists colleagues whose company
  matches the caller's, ignoring case, and never lists the caller.
  `team_members_list` adds per-member averages, a pending count and a team
  average.
- **The request lifecycle.**
  - `request_feedback` creates a pending request.
  - `fill_feedback` lets only the addressee save the one feedback the
    one-to-one link allows, and marks the request completed.

ORM queries are filters over sequences, and the rows they return are taken to
come back in table order. The database is three
tables (`Models.Db`). A request's primary key is its position in the request
table. A view is a function from the database and its inputs to a new database
and a response (`Views.Outcome`). Averages are exact rationals; Python's
`round` is round-half-to-even on them. The iteration order of the keyword set
is a parameter constrained to be an enumeration of the set. `Analytics.Dedup`
shows that such an order exists for every input.

Files:
- `Text.dfy`: `strip`, `split(',')`, `join`, `iexact`.
- `Numeric.dfy`: sums, means and rounding.
- `Models.dfy`: records, the database, integrity rules and form cleaning.
- `Analytics.dfy`: row selection, keywords, excerpts, competencies and trainings.
- `Views.dfy`: the handlers.

## Model

| member | source | states |
|---|---|---|
| Text.Strip | feedbackas/services.py:85 | The stripped string has no whitespace at either end. It is the input with a whitespace-only prefix and suffix cut away, using Python's `isspace` set. |
| Text.StripIdempotent | feedbackas/services.py:85 | Stripping a stripped string changes nothing. |
| Text.Split | feedbackas/services.py:85 | `split(',')` yields at least one piece and no piece contains a comma. Joining the pieces with commas gives the input back. |
| Text.SplitJoin | feedbackas/services.py:85 | Splitting the comma-join of comma-free pieces gives back exactly those pieces. This is the other half of the round trip. |
| Text.LowerAsciiMatches | feedbackas/views.py:53 | Under the case folding of `iexact`, two characters match exactly when they are equal, or one is an upper-case ASCII letter and the other its own lower-case form. |
| Text.EqualsIgnoreCaseExactly | feedbackas/views.py:111 | Two company names match under `iexact` exactly when they have the same length and each pair of characters at the same position is the same character or the same ASCII letter in different case. |
| Numeric.SumBounds | feedbackas/services.py:81 | A sum of n values in [lo, hi] lies in [n·lo, n·hi]. |
| Numeric.Mean | feedbackas/services.py:81 | The average of no rows is 0, the `or 0` fallback. |
| Numeric.MeanTimesCount | feedbackas/services.py:81 | For a non-empty column, the average times the row count is the column's sum. |
| Numeric.MeanBounds | feedbackas/services.py:90-96 | The average of ratings in [lo, hi] lies in [lo, hi]. |
| Numeric.NearestInt | feedbackas/services.py:122 | The integer nearest to y, at most half away; an exact tie picks the even integer. |
| Numeric.Round | feedbackas/services.py:122 | `round(x, 1)` and `round(x, 2)` give a multiple of 0.1 or 0.01 at most half a unit from x. An exact tie goes to the even multiple. |
| Numeric.RoundClose | feedbackas/views.py:180 | A rounded average is within 0.05 of the exact one. |
| Numeric.RoundWithin | feedbackas/services.py:98-102 | Rounding a value inside an integer range never leaves the range. |
| Models.FindUser | feedbackas/views.py:71 | The lookup by primary key finds a user exactly when one has that id, and the user it returns has that id. |
| Models.NewRequest | feedbackas/models.py:4-10 | A request created with only requester, addressee, project and due date is pending and has no comment. |
| Models.CleanForm | feedbackas/forms.py:16-19 | The form is valid exactly when a rating is given, the stripped keywords are non-empty and at most 255 characters, and the stripped text is non-empty. The cleaned fields are the stripped inputs. |
| Models.FeedbackFromForm | feedbackas/models.py:15-27 | Feedback saved from the form is linked to its request and takes the form's rating, keywords and text. All five competency ratings take the default 5, and the comment is empty. |
| Analytics.SelectIn | feedbackas/services.py:79 | Filtering keeps exactly the rows that match the query and adds none. |
| Analytics.Select | feedbackas/services.py:79 | A row is selected exactly when its request is completed and matches the requester (or the addressee, or a set of addressees). |
| Analytics.MatchingRows | feedbackas/services.py:79 | A row position is matched exactly when it is among the first `n` rows and its request is completed and belongs to the user the query filters on. |
| Analytics.SelectCount | feedbackas/services.py:123 | The number of selected rows is the number of matching table rows. |
| Analytics.StrippedPieces | feedbackas/services.py:85 | Every kept piece is non-empty and stripped, and there are no more of them than pieces. Stripping never introduces a comma. |
| Analytics.StrippedPiecesExactly | feedbackas/services.py:85 | A string is kept exactly when it is the non-empty strip of some piece. |
| Analytics.KeywordsOf | feedbackas/services.py:85 | The keywords of one row are non-empty, stripped and comma-free. |
| Analytics.KeywordsOfExactly | feedbackas/services.py:85 | The keywords of one row are exactly the non-empty stripped comma-separated pieces of its field. |
| Analytics.RowKeywordShape | feedbackas/services.py:84-86 | Every keyword of any selected row is non-empty, stripped and comma-free. |
| Analytics.KeywordsIdempotent | feedbackas/services.py:85 | Extracting keywords again from their comma-join gives the same list. |
| Analytics.AllKeywords | feedbackas/services.py:83-86 | The gathered list holds a string exactly when it is a keyword of the last row or, recursively, of an earlier one (`KeywordOfRows`). |
| Analytics.KeywordOfRowsExists | feedbackas/services.py:84-86 | `KeywordOfRows` holds exactly when the string is a keyword of some row, so `AllKeywords` holds exactly the keywords of the selected rows. |
| Analytics.KeywordRow | feedbackas/services.py:84-86 | A string that is a keyword of the rows is a keyword of a particular row, which the lemma names. |
| Analytics.RowKeyword | feedbackas/services.py:84-86 | A keyword of any one row is a keyword of the rows. |
| Analytics.CollectKeywords | feedbackas/services.py:83-86 | The accumulating loop ends with every row's keywords in row order. Each gathered keyword is non-empty and stripped. |
| Analytics.EnumerationLength | feedbackas/services.py:124 | Every iteration order of the keyword set has exactly as many entries as there are distinct keywords. |
| Analytics.Dedup | feedbackas/services.py:124 | Every list has an order that lists each of its distinct elements exactly once, so the statistics are defined for every input. |
| Analytics.Slice | feedbackas/services.py:126-127 | Python slicing with bounds past the end gives the clipped length, element for element. |
| Analytics.FirstKeywords | feedbackas/services.py:124 | `list(set(...))[:7]` has no duplicates and min(7, number of distinct keywords) entries. Each entry is a stripped non-empty keyword of some selected row. |
| Analytics.ExcerptsArePrefix | feedbackas/services.py:126-127 | Strengths followed by improvements are the first min(5, n) texts. |
| Analytics.Summarise | feedbackas/services.py:121-127 | The count is the number of rows and the keywords are as in FirstKeywords. Strengths are the first min(3, n) texts and improvements the texts at 3 and 4 where present; together they form the five-text prefix. |
| Analytics.TrainingMapCoversLabels | feedbackas/services.py:105-111 | Every competency name is a key of the training map and maps to its own course, never to the fallback course. |
| Analytics.Scores | feedbackas/services.py:90-103 | There are always exactly five competencies, in fixed order and under their fixed names. Each score is its column's average rounded to two decimals, and 0 without rows. |
| Analytics.ScoresBounds | feedbackas/services.py:97-103 | Without rows every score is 0. With ratings in [lo, hi] every score stays in [lo, hi]. |
| Analytics.WeakFrom | feedbackas/services.py:114-115 | Each weak position is a competency position that scores below 7. |
| Analytics.WeakFromIncreasing | feedbackas/services.py:114 | The weak positions come in competency order. |
| Analytics.WeakFromComplete | feedbackas/services.py:115 | Every position scoring below 7 is among the weak positions. |
| Analytics.RecommendFrom | feedbackas/services.py:113-119 | The loop emits one training per weak competency, in competency order. Each training carries that competency's name and the course the map gives it, or the fallback course. |
| Analytics.RecommendExactly | feedbackas/services.py:113-119 | A training is recommended exactly when it belongs to a competency scoring below 7. |
| Analytics.LabelledRecommendations | feedbackas/services.py:113-119 | For five competencies scored under their own names, the loop recommends exactly the courses of those scoring below 7, never the fallback. |
| Analytics.AllWeakRecommendations | feedbackas/services.py:113-119 | When all five competencies score below 7, all five courses are recommended in competency order. |
| Analytics.CoursesNotFallback | feedbackas/services.py:118 | No competency's course is the fallback text. |
| Analytics.Recommendations | feedbackas/services.py:113-119 | Every recommendation is the course of a competency scoring below 7. Every such competency is recommended. The fallback course never appears. |
| Analytics.RecommendationsInOrder | feedbackas/services.py:113-119 | The recommendations are in the fixed competency order: the k-th is the course of competency `ps[k]`, and the positions `ps` strictly increase. |
| Analytics.RecommendInOrder | feedbackas/services.py:114-119 | For five scores under their own labels, the loop lists the courses of increasing competency positions. |
| Analytics.GetUserStats | feedbackas/services.py:75-129 | Only completed feedback on requests the user made counts, and the count is the number of such rows. The statistics, all as stated above, are: the overall two-decimal average (0 when there are none), the keywords, the excerpts, the competency scores and the trainings. |
| Analytics.NoFeedbackStats | feedbackas/services.py:121-129 | Without completed feedback: overall 0, count 0, no keywords, strengths or improvements, and all five courses recommended in competency order. |
| Analytics.NoFeedbackRecommendations | feedbackas/services.py:113-119 | With no rows, the recommendations are the five courses, in competency order. |
| Analytics.DefaultRatingsRecommendAll | feedbackas/services.py:115 | If every row carries the default competency ratings, every course is recommended, because 5 is below 7. |
| Analytics.ExampleAverage | feedbackas/services.py:122 | Ratings 2, 4, 4 and 6 give an overall average of 4.0. |
| Views.TeamUsers | feedbackas/views.py:108-115 | The team query returns exactly the users in the caller's team. That is everyone when the caller has no company, and otherwise those whose company matches ignoring case. With the exclusion, the caller is left out. When user ids are unique, no user is returned twice. |
| Views.UniqueFront | feedbackas/views.py:111 | Dropping the last user of a table with unique ids leaves the ids unique. |
| Views.UniqueSnoc | feedbackas/views.py:111 | Appending a later user to a selection of earlier users keeps the ids unique. |
| Views.GetTeamMembers | feedbackas/views.py:48-61 | Never returns the caller. With a company set, every entry is a user whose company matches it ignoring case, and every such other user is listed. Without a company or profile, every other user is listed. Each entry's name is first name, a space, last name. When user ids are unique, no colleague is listed twice. |
| Views.Entries | feedbackas/views.py:60 | One `{'id', 'name'}` entry per user, in the same order. Every listed entry belongs to a given user and every given user is listed. Unique user ids give unique entry ids. |
| Views.CountPendingRows | feedbackas/views.py:125 | The pending count is the number of pending requests addressed to a team member. |
| Views.TeamMembersList | feedbackas/views.py:106-133 | Lists exactly the team query's users, the caller included, one entry per user: as many entries as users, with pairwise different ids when user ids are unique. Each member carries the one-decimal average rating of the completed feedback on requests addressed to them, that is the feedback they wrote, or 0. Also gives the pending count over the team and the team's one-decimal average. |
| Views.TeamMembersListShowsCaller | feedbackas/views.py:111 | Any caller who is a user appears on their own team page. |
| Views.TeamMembersListExcludingCaller | feedbackas/tests.py:29 | The same page with the caller left out. Every other team member is listed exactly once, with the average rating of the feedback they wrote. |
| Views.RequestFeedback | feedbackas/views.py:64-80 | Anything but POST creates nothing and answers "Invalid request method". An addressee the user lookup does not find is a 404. On success exactly one pending request from the caller is appended, and nothing else changes. |
| Views.FillFeedback | feedbackas/views.py:83-101 | Only the addressee reaches the request; anyone else gets a 404. A valid POST appends one feedback linked to the request, carrying the cleaned form's rating, keywords and text with default competency ratings, and marks only that request completed. An invalid form, a GET or a second submission leaves the database unchanged. |
| Views.RequestFeedbackKeepsConsistent | feedbackas/views.py:73-78 | Creating a request keeps the integrity rules. |
| Views.SaveFeedback | feedbackas/views.py:88-92 | Saving appends exactly the given feedback after the existing rows, marks that request completed and leaves every other request and every user as they were. |
| Views.SavedFeedback | feedbackas/models.py:16 | After a save, a request has feedback exactly when it had some before or it is the request just filled. |
| Views.SaveFeedbackKeepsConsistent | feedbackas/views.py:88-92 | Saving the first feedback of a request keeps the one-to-one link and the completed-iff-feedback rule. |
| Views.FillFeedbackKeepsConsistent | feedbackas/views.py:88-92 | Filling a request keeps the integrity rules: at most one feedback per request, and completed exactly when the feedback exists. |
| Views.CompletedRequestIsFinal | feedbackas/models.py:16 | In a consistent database a completed request cannot be filled again, and every attempt leaves the database unchanged. |
| Views.FilledFeedbackIsSelected | feedbackas/views.py:88-92 | A saved feedback counts in the requester's statistics and on the addressee's results page. |
| Views.PlaceholderCompetencies | feedbackas/views.py:170-176 | The results page lists the five competency names with fixed scores 9.2, 8.5, 7.8, 9.5 and 8.9. |
| Views.Results | feedbackas/views.py:150-189 | The results page counts completed feedback on requests addressed to the user, so feedback the user wrote (the page names it `received_feedback_count`; the statistics service selects by requester instead), with a one-decimal overall average (0 when none). It applies the same keyword and excerpt rules as the statistics. The company name is the profile's company, or "" without a profile. The competencies are the five fixed placeholder scores, the same for every user and every database. |

## Left out

- `FeedbackGenerator.generate` (feedbackas/services.py:6-71) builds a prompt and forwards it to an external text-generation service. It has no behaviour of its own to state.
- Numeric.Round: rounds the exact average half-to-even. Python rounds the nearest binary float, so a tie such as 107/40 = 2.675 rounds up here but down in Python. `Avg` is likewise exact and not a float.
- The views read `profile.company`, but the `Profile` model in users/models.py declares `company_link`. The company is modelled as an optional profile with a string. A database error on that access is treated like a missing profile, as the `except` branches do.
- `@login_required`, template rendering, redirects and JSON encoding are left out. A response is one of a few abstract outcomes, and the signed-in user is a parameter.
- Views.RequestFeedback: a non-numeric `requested_to` is treated as missing (404). Django would raise a server error instead.
- Views.RequestFeedback: a missing or malformed `due_date`, or a missing `project_name`, fails the insert and is modelled as a server error. The 255-character `project_name` limit is not enforced at insert on SQLite and is not modelled.
- Models.CleanForm: does not model Django's rejection of text containing the NUL character. It also does not model parsing `rating` from text; a rating that is missing or not an integer is the form's absent rating.
- Models.CleanForm: does not bound `rating` by the database's integer column range. Django adds that bound as a model-field validator, and it depends on the backend: 32-bit on PostgreSQL and MySQL, 64-bit on SQLite. A rating outside it is never saved by `fill_feedback`, while the model accepts and saves any integer.
- Analytics.Select (and the other queries over `feedbacks`, `users` and `requests`): the rows come back in table order. The models set no `Meta.ordering` and the querysets no `order_by`, so SQL promises no order. The order decides which texts become the strengths and improvements and the order of team members.
- Text.EqualsIgnoreCase folds ASCII letters only, as SQLite's `LIKE` does. Other database backends may fold more.
- Analytics.GetUserStats and Views.Results: the iteration order of Python's `set` is not modelled. It is a parameter that must list each distinct keyword once.
- `my_tasks_list`, `home`, `index`, `register` and `logout_view` only fetch and render. The faker script, users/views.py, users/templatetags, feedbackas/backends.py and feedbackas/urls.py are not part of this model.
- Concurrent requests and transactions are not modelled. Each view is one atomic step.

## Findings

| source | as written | input that shows it | evidently intended | confidence | as-written member | corrected member |
|---|---|---|---|---|---|---|
| feedbackas/views.py:111 | The team query of `team_members_list` has no `.exclude(id=user.id)`, so the caller is listed on their own team page. | Any signed-in user present in the users table, e.g. one whose profile company is "Acme". | The caller is left out, as tests.py:29, 47 and 60 assert and as `get_team_members` does. | medium; not executed | Views.TeamMembersListShowsCaller | Views.TeamMembersListExcludingCaller |
