# LinkedIn post generator — a verified model of its core

The application is a Streamlit page that writes LinkedIn posts with an LLM. It has three parts,
and this project models the deterministic part of each in Dafny:

- **Prompt builder** (`post_generator.py`, module `PostGenerator` in `post_generator.dfy`).
  - `get_length_str` maps a length category to a line-count phrase.
  - `get_prompt` assembles the instruction text. It is the fixed triple-quoted literal with the
    topic, the length phrase, the language and an emoji directive interpolated, followed by at
    most two few-shot examples.
  - `get_prompt` is a method with the source's loop, including the `break` after the second
    example. It is proved equal to the function `Prompt`, and the properties of the prompt are
    lemmas about `Prompt`.
- **Persistence store** (`db_helper.py`, module `DbHelper` in `db_helper.dfy`).
  - The class `DatabaseHelper` holds the three SQLite tables `posts`, `templates` and
    `user_preferences` as sequences of rows in insertion order.
  - Each table has an `AUTOINCREMENT` counter.
  - There is one clock, which `CURRENT_TIMESTAMP` reads. Every insert takes the clock reading
    `now` as an argument, and that reading never goes back in time.
  - Every mutator names in `modifies` only the fields it changes, so "the other tables are
    unchanged" holds by construction.
  - The invariant `Valid` says that ids are issued by the counter in increasing order and
    that timestamps never decrease along a table.
- **Page decision rules** (`main.py`, module `App` in `app.dfy`).
  - Each Streamlit widget becomes a boolean or string argument.
  - The LLM's reply and the few-shot examples are arguments too.
  - The rules modelled are: loading the settings, when they are written back, which templates
    the sidebar offers, the hashtag line, and the Generate/Regenerate guard with its save.
  - "Save as Template" is also modelled.

Shared pieces live in `seqs.dfy` (module `Seqs`):

- the SQL `WHERE`, `ORDER BY … DESC` and `LIMIT/OFFSET` clauses;
- Python's `str.join` and `str.split`;
- substring containment.

`wrappers.dfy` holds `Option`, which stands for Python's `None`.

Two behaviours of the code that a reader might not expect are modelled as written:

- The two lines about Hinglish (post_generator.py:34-35) are part of the literal, so they
  appear in the prompt for every language, English included (`ClarificationForEveryLanguage`).
- A length other than Short, Medium or Long is not an error. `get_length_str` returns `None`,
  and the f-string writes the text `None` into the prompt (`LengthText`, `LengthTextInPrompt`).

One consequence of the code is proved rather than fixed. "Save as Template" stores its
templates in the category "Custom", which the sidebar's category selector does not offer. Those
templates can therefore never be picked from the sidebar (`CustomTemplatesNeverOffered`,
`App.Session.SaveAsTemplate`).

## Model

| member | source | states |
|---|---|---|
| PostGenerator.LengthStr | post_generator.py:7-13 | "Short", "Medium" and "Long" map to "1 to 5 lines", "6 to 10 lines" and "11 to 15 lines"; there is a phrase exactly for these three, and every other input gives `None` |
| PostGenerator.LengthStrInjective | post_generator.py:7-13 | two categories that get the same phrase are the same category |
| PostGenerator.LengthText | post_generator.py:29 | the f-string writes the phrase itself, or the text "None" when there is no phrase |
| PostGenerator.GetPrompt | post_generator.py:22-56 | the loop that appends the header and the examples, breaking after index 1, returns exactly `Prompt` of its arguments |
| PostGenerator.EntriesAppendOne | post_generator.py:49-51 | one more example adds exactly one entry, labelled with its 1-based position, after the earlier ones |
| PostGenerator.PromptShape | post_generator.py:44-56 | the prompt is the literal, then the header when there are examples, then the entries of the first min(2, n) examples |
| PostGenerator.NoExamplesPromptIsBase | post_generator.py:44-56 | with no examples the prompt equals the literal exactly |
| PostGenerator.BaseIsPrefixAndHeaderIffExamples | post_generator.py:25-47 | the literal is always a prefix of the prompt, and the text after it starts with the examples header if and only if there is at least one example |
| PostGenerator.EntriesOfOneOrTwo | post_generator.py:49-51 | the first two entries are labelled "Example 1" and "Example 2", in the order given |
| PostGenerator.AtMostTwoExamples | post_generator.py:46-54 | one example gives the header and "Example 1"; two or more give the header, then "Example 1" and "Example 2" with the first two texts |
| PostGenerator.LaterExamplesIgnored | post_generator.py:49-54 | once there are two examples, adding more never changes the prompt |
| PostGenerator.PieceInPrompt | post_generator.py:25-42 | every fixed or interpolated piece of the literal occurs in the prompt |
| PostGenerator.ClarificationForEveryLanguage | post_generator.py:34-35 | the Hinglish clarification occurs in the prompt whatever the language argument is |
| PostGenerator.EmojiDirectiveInPrompt | post_generator.py:32 | the prompt holds the directive the emoji flag selects, and the two directives differ |
| PostGenerator.LengthTextInPrompt | post_generator.py:23-29 | the prompt holds the length phrase of the category, or "None" |
| DbHelper.SqlBool | db_helper.py:54-60 | a Python bool is stored as 0 or 1 and reads back as the same truth value |
| DbHelper.InsertedValid | db_helper.py:17-22 | an insert with the next id and the current time keeps ids increasing and timestamps non-decreasing, and the new id exceeds every earlier id |
| DbHelper.PostsPage | db_helper.py:67-72 | only rows with `is_template = 0` come back, at most `limit` of them, and exactly min(limit, n - offset) of the n matching rows when offset < n, else none |
| DbHelper.PostsPageNewestFirst | db_helper.py:68-71 | on a table in insertion order the page is in non-increasing `created_at` order and has no row twice |
| DbHelper.NewPostListedFirst | db_helper.py:54-75 | a post saved strictly later than every other row is first on the first page |
| DbHelper.PostsPageRanked | db_helper.py:67-72 | for the row at position i of the page, at most offset + i genuine posts are strictly newer and more than offset + i are at least as new (itself included), so it holds rank offset + i among the genuine posts newest first, whatever the order of ties |
| DbHelper.NewerRowRaisesRank | db_helper.py:68-71 | a genuine post strictly newer than a row gives that row a rank of at least one |
| DbHelper.StrictlyNewestRanksFirst | db_helper.py:68-71 | when one post is strictly newer than every other, it is the only row ranked first |
| DbHelper.NewestIsStrictlyLatest | db_helper.py:108 | when one row is strictly newer than all others, it is the only row a newest-first read can return |
| DbHelper.Latest | db_helper.py:105-111 | there is no row exactly when the table is empty; otherwise the row comes from the table and has the largest `created_at` |
| DbHelper.LastSavedIsLatest | db_helper.py:95-111 | a row saved strictly later than all others is the one read back |
| DbHelper.InsertedIsLatest | db_helper.py:95-111 | in a valid table, a row inserted after the clock has moved on is the row read back |
| DbHelper.WithoutPost | db_helper.py:113-118 | after the delete, a row is present exactly when it was present and has another id |
| DbHelper.DeleteMissingIdIsNoOp | db_helper.py:116 | deleting an id that no row has leaves the table unchanged |
| DbHelper.WithEngagement | db_helper.py:120-129 | the table keeps its length; rows with another id are unchanged; rows with that id get the new score and nothing else changes |
| DbHelper.UpdateMissingIdIsNoOp | db_helper.py:123-127 | updating an id that no row has leaves the table unchanged |
| DbHelper.UpdateTouchesOnlyScore | db_helper.py:124-125 | no column other than `engagement_score` changes in any row |
| DbHelper.TableLater | db_helper.py:22 | a valid table stays valid as the clock moves forward |
| DbHelper.DatabaseHelper.constructor | db_helper.py:6-8 | a new helper on a fresh file has all three tables, empty |
| DbHelper.DatabaseHelper.InitDb | db_helper.py:10-52 | afterwards all three tables exist, and rows already present are left as they were, so running it again is idempotent |
| DbHelper.DatabaseHelper.SavePost | db_helper.py:54-62 | appends exactly one row with a fresh id above every earlier one, the given columns, `is_template` as passed (false by default) and score 0; the other tables are unchanged |
| DbHelper.DatabaseHelper.Advance | db_helper.py:22 | the clock moves forward and every table stays consistent |
| DbHelper.DatabaseHelper.GetAllPosts | db_helper.py:64-75 | returns only genuine posts from the table, with the paging count, newest first, with no row twice; the row at position i is the (offset + i)-th newest genuine post under any order of ties; changes nothing |
| DbHelper.DatabaseHelper.GetTemplates | db_helper.py:77-83 | returns every template row, unfiltered, and changes nothing |
| DbHelper.DatabaseHelper.SaveTemplate | db_helper.py:85-93 | appends exactly one row with a fresh id and does not check that the name is unique; the posts and preferences tables are unchanged |
| DbHelper.DatabaseHelper.SaveUserPreferences | db_helper.py:95-103 | only appends; when the clock has moved on, the new row is strictly the newest and is the one read back |
| DbHelper.DatabaseHelper.GetUserPreferences | db_helper.py:105-111 | returns nothing exactly for an empty table, and otherwise a row with the largest `created_at`; it changes nothing |
| DbHelper.DatabaseHelper.DeletePost | db_helper.py:113-118 | removes exactly the rows with that id; a missing id changes no table |
| DbHelper.DatabaseHelper.UpdatePostEngagement | db_helper.py:120-129 | sets the score of the rows with that id only; a missing id changes no table |
| App.SelectableLengthsHavePhrases | main.py:13 | every length the Length selector offers has a line-count phrase |
| App.SelectableLanguagesInPrompt | main.py:14 | each language the Language selector offers, "English" and "Hinglish", is written into the prompt built for it |
| App.LoadUserPreferences | main.py:26-40 | with no row, the defaults are emojis on, hashtags on, "Medium" and "English"; with a row, positions 1-4 are taken, and the two flags are read as booleans |
| App.LoadAfterSave | main.py:28-34 | loading a row that was saved from some settings gives those settings back |
| App.PreferencesToSave | main.py:56-60 | a row is written exactly when a checkbox differs from the loaded value, and it carries the loaded length and language unchanged |
| App.PreferencesSettle | main.py:26-60 | after a write, the next run loads what was written, so the same checkbox states write nothing more |
| App.SyncPreferences | main.py:47-60 | loads a newest row or the defaults; appends the write exactly when the rule asks for one, taking the next preferences id and setting the clock to `now`, and otherwise leaves the table, counter and clock as they were; when the clock has moved on, every newest-first read afterwards loads the new checkbox values |
| App.OfferedTemplates | main.py:65-68 | the loop offers exactly the templates of the selected category, in stored order |
| App.CustomTemplatesNeverOffered | main.py:15-68 | for every category the selector offers, no template in the "Custom" category is offered |
| App.WithoutSpaces | main.py:195 | the result holds every character of the topic other than a space as many times as the topic does, and no space; a topic without spaces comes back unchanged |
| App.WithoutSpacesConcat | main.py:195 | removing spaces from two joined strings is joining the two strings with their spaces removed |
| App.HashtagList | main.py:194-199 | exactly four tags: "#" with the topic's spaces removed, then "#LinkedIn", "#ProfessionalGrowth" and "#CareerDevelopment" |
| App.HashtagsHaveNoSpaces | main.py:194-199 | no suggested tag contains a space |
| App.HashtagLineSplitsIntoFourTags | main.py:200 | splitting the displayed line at its spaces gives back exactly the four tags |
| App.ShouldGenerate | main.py:147 | Generate always runs; without Generate, it runs exactly when Regenerate is clicked and a non-empty post is on display |
| App.Session.constructor | main.py:18-19 | a new session has no current post |
| App.Session.UseTemplate | main.py:71-72 | the Use button puts the template's content on display |
| App.Session.GeneratePost | main.py:147-152 | when the guard holds, the prompt is `Prompt` of the selections, the reply becomes the current post, and it is saved once as a non-template with the selected topic, length and language, under the next post id and at `now`, which becomes the clock; otherwise nothing changes |
| App.Session.SaveAsTemplate | main.py:186-188 | stores the current post as one new template in the "Custom" category, with a name beginning "Template_", under the next template id and at `now`, which becomes the clock; its category is one the sidebar never offers |
| App.Session.Sidebar | main.py:47-80 | one rerun's sidebar: the settings are the defaults for an empty preferences table and otherwise those of a newest row, and the row is written back exactly when a checkbox differs from them; the templates of the category are offered in stored order; a clicked Use button puts that template's content on display, otherwise the post on display stays; the history is the first page of `get_all_posts`: min(10, n) of the n genuine posts, no row twice, the i-th newest at position i; the clock and the preferences id counter move only when the row is written |
| App.Session.GenerateAndSave | main.py:147-188 | generate then save-as-template at one instant: when the guard holds, the prompt is `Prompt` of the selections and the emoji checkbox, and the reply is shown and inserted as the next post; the template is inserted exactly when Save is clicked with a non-empty post on display; each id counter advances by one exactly when its table gains a row, and the clock moves to `now` when a row is written and stays put otherwise |
| App.Session.Run | main.py:43-188 | a whole rerun at one instant, in script order: the settings loaded from the stored preferences and their write-back, the templates offered and the first history page with no row twice (both read before this run's writes), the Use click, then the guard on the post now on display, a prompt built from the selections and the emoji checkbox, and the post and template inserts; each table gains exactly the row its rule asks for, its id counter advances with it, and the clock moves to `now` only when some row is written |
| App.GeneratedPostHeadsHistory | main.py:80-152 | after Generate at a later instant than every stored row, the post-history listing starts with the post just generated |

## Left out

- The LLM call in `generate_post` (post_generator.py:16-19) is an external, non-deterministic
  network call. The reply is an argument of `App.Session.GeneratePost`.
- `few_shot.FewShotPosts` is not part of this model. The examples that `get_filtered_posts`
  returns are an argument, as a sequence of their `text` fields. The topic choices from
  `get_tags` are an argument too.
- SQLite connections, commits and the SQL engine are I/O. The tables are sequences of rows, and
  `SELECT *` tuples are `Row` values whose fields stand for the tuple positions.
- The database file persisting between runs is not modelled. The constructor starts from a
  file without tables, and `InitDb` on existing tables is covered by its own contract.
- `CURRENT_TIMESTAMP` and `datetime.now()` are wall-clock readings. They are the argument
  `now` (a natural number that never decreases) and the string argument `stamp` for the
  `%Y%m%d_%H%M%S` text of a template name.
- SQLite leaves the order of rows with equal `created_at` undefined. The function bodies
  (`PostsPage`, `Latest`) pick the later insertion first. The contracts of
  `DbHelper.DatabaseHelper.GetAllPosts`, `DbHelper.DatabaseHelper.GetUserPreferences` and
  `App.SyncPreferences` claim only what holds for every tie order.
- Negative `limit` or `offset` (which SQLite reads as "no limit" and as 0) is not modelled.
  Both are natural numbers, and the application only uses the defaults 10 and 0.
- `is_template` and the preference flags are stored as the integers 0 and 1. Values that
  SQLite would store for other Python types are not modelled.
- All Streamlit rendering, layout, expanders, `st.rerun` and the editing state are not
  modelled. That covers the post-history listing, the delete and edit buttons, the
  Create/Edit Template form and its direct `save_template` call, and "Copy to Clipboard".
- The two "Save Changes" handlers (main.py:122-126, 163-168) persist nothing, so they have no
  operation here.
- The character-count caption (main.py:177-178) is display only.
- `DbHelper.DatabaseHelper.GetTemplates` returns the rows in insertion order. `SELECT * FROM templates`
  (db_helper.py:80) has no `ORDER BY`, so SQLite promises no order, though it gives rowid order
  for such a table in practice. The "stored order" of `App.OfferedTemplates` rests on this.
- SQLite exceptions are not modelled. For example, `None` in a `NOT NULL` column raises
  `IntegrityError` (db_helper.py:18-21, 32-34). Every argument here is a typed string or
  number that cannot be `None`, so no insert fails.
- `App.Session.Run` models one rerun of the script with at most one click among Use, Generate,
  Regenerate and "Save as Template", and with the edit forms closed. Several reruns in a row
  are successive calls, and the clock reading `now` of each one is an argument.
- `App.Session.GeneratePost` always stores the reply it is given. When `llm.invoke`
  (post_generator.py:18) raises, the script stops before `current_post` is set and before
  `save_post` runs (main.py:149-152), so nothing is stored. A failing LLM call is not modelled.
