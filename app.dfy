/** The decision rules of main.py with the Streamlit widgets taken away: which settings a run
    starts from, when they are written back, which templates the sidebar offers, the hashtag
    line, and when a post is generated and stored. A button press or a checkbox state is a
    boolean argument, the LLM's reply is an argument, and the clock reading is `now`. */
module App {
  import opened Wrappers
  import opened Seqs
  import PostGenerator
  import opened DbHelper

  const English := "English"
  const Hinglish := "Hinglish"

  /** The choices of the Length and Language select boxes. */
  const LengthOptions: seq<string> := [PostGenerator.Short, PostGenerator.Medium, PostGenerator.Long]
  const LanguageOptions: seq<string> := [English, Hinglish]

  /** The choices of the sidebar's Template Category select box. */
  const TemplateCategories: seq<string> := ["Announcement", "Achievement", "Story", "Question", "Tip"]

  /** The category "Save as Template" stores, and the prefix of the name it gives. */
  const CustomCategory := "Custom"
  const TemplatePrefix := "Template_"

  /** Every length the select box offers has a line-count phrase in the prompt. */
  lemma SelectableLengthsHavePhrases()
    ensures forall k :: 0 <= k < |LengthOptions| ==> PostGenerator.LengthStr(LengthOptions[k]).Some?
  {
    assert PostGenerator.LengthStr(LengthOptions[0]).Some?;
    assert PostGenerator.LengthStr(LengthOptions[1]).Some?;
    assert PostGenerator.LengthStr(LengthOptions[2]).Some?;
  }

  /** Every language the select box offers is written into the prompt. */
  lemma SelectableLanguagesInPrompt(length: string, tag: string, useEmojis: bool, examples: seq<string>)
    ensures forall k :: 0 <= k < |LanguageOptions| ==>
      Contains(PostGenerator.Prompt(length, LanguageOptions[k], tag, useEmojis, examples), LanguageOptions[k])
  {
    forall k | 0 <= k < |LanguageOptions|
      ensures Contains(PostGenerator.Prompt(length, LanguageOptions[k], tag, useEmojis, examples), LanguageOptions[k])
    {
      PostGenerator.PieceInPrompt(length, LanguageOptions[k], tag, useEmojis, examples, PostGenerator.LanguagePiece);
    }
  }

  /** The dictionary `load_user_preferences` returns. */
  datatype Settings = Settings(useEmojis: bool, showHashtags: bool, defaultLength: string, defaultLanguage: string)

  /** What a run starts from when no preferences were ever saved. */
  const DefaultSettings := Settings(true, true, PostGenerator.Medium, English)

  /** `load_user_preferences`: the stored row with its two flags read back as booleans
      (any non-zero integer is true), or the defaults when there is no row. */
  function LoadUserPreferences(row: Option<Row<Preferences>>): (s: Settings)
    ensures row.None? ==> s == DefaultSettings
    ensures row.Some? ==> (s.useEmojis <==> row.value.data.useEmojis != 0)
    ensures row.Some? ==> (s.showHashtags <==> row.value.data.showHashtags != 0)
    ensures row.Some? ==> s.defaultLength == row.value.data.defaultLength
    ensures row.Some? ==> s.defaultLanguage == row.value.data.defaultLanguage
  {
    match row
    case None => DefaultSettings
    case Some(r) =>
      Settings(r.data.useEmojis != 0, r.data.showHashtags != 0, r.data.defaultLength, r.data.defaultLanguage)
  }

  /** The row `save_user_preferences` writes for some settings. */
  function StoredPreferences(s: Settings): (r: Preferences)
  {
    Preferences(SqlBool(s.useEmojis), SqlBool(s.showHashtags), s.defaultLength, s.defaultLanguage)
  }

  /** Loading a row that was saved gives back the settings it was saved from. */
  lemma LoadAfterSave(s: Settings, id: int, createdAt: nat)
    ensures LoadUserPreferences(Some(Row(id, createdAt, StoredPreferences(s)))) == s
  {
    var loaded := LoadUserPreferences(Some(Row(id, createdAt, StoredPreferences(s))));
    assert loaded.useEmojis == s.useEmojis && loaded.showHashtags == s.showHashtags;
  }

  /** The save rule of the sidebar: a row is written only when a checkbox differs from the
      loaded value, and it carries the loaded default length and language unchanged. */
  function PreferencesToSave(loaded: Settings, useEmojis: bool, showHashtags: bool): (r: Option<Settings>)
    ensures r.Some? <==> useEmojis != loaded.useEmojis || showHashtags != loaded.showHashtags
    ensures r.Some? ==> r.value == loaded.(useEmojis := useEmojis, showHashtags := showHashtags)
  {
    if useEmojis != loaded.useEmojis || showHashtags != loaded.showHashtags then
      Some(Settings(useEmojis, showHashtags, loaded.defaultLength, loaded.defaultLanguage))
    else
      None
  }

  /** Once written, the preferences settle: the next run loads the settings that were
      written, so the same checkbox states write nothing more. */
  lemma PreferencesSettle(loaded: Settings, useEmojis: bool, showHashtags: bool, id: int, createdAt: nat)
    requires PreferencesToSave(loaded, useEmojis, showHashtags).Some?
    ensures var saved := PreferencesToSave(loaded, useEmojis, showHashtags).value;
            var next := LoadUserPreferences(Some(Row(id, createdAt, StoredPreferences(saved))));
            next == saved && PreferencesToSave(next, useEmojis, showHashtags).None?
  {
    var saved := PreferencesToSave(loaded, useEmojis, showHashtags).value;
    LoadAfterSave(saved, id, createdAt);
  }

  /** The settings part of one run of `main`: load the preferences, then write a row when a
      checkbox was changed. When the clock has moved on since the last write, whichever row
      the next run reads back is the one just written. */
  method SyncPreferences(db: DatabaseHelper, now: nat, useEmojis: bool, showHashtags: bool)
    returns (loaded: Settings)
    requires db.Valid() && db.clock <= now
    modifies db`preferences, db`lastPreferencesId, db`clock
    ensures db.Valid()
    ensures old(db.preferences) == [] ==> loaded == DefaultSettings
    ensures old(db.preferences) != [] ==>
      exists r :: IsNewest(r, old(db.preferences)) && loaded == LoadUserPreferences(Some(r))
    ensures PreferencesToSave(loaded, useEmojis, showHashtags).None? ==>
      && db.preferences == old(db.preferences)
      && db.lastPreferencesId == old(db.lastPreferencesId)
      && db.clock == old(db.clock)
    ensures PreferencesToSave(loaded, useEmojis, showHashtags).Some? ==>
      && db.preferences == old(db.preferences) + [Row(old(db.lastPreferencesId) + 1, now,
           StoredPreferences(PreferencesToSave(loaded, useEmojis, showHashtags).value))]
      && db.lastPreferencesId == old(db.lastPreferencesId) + 1
      && db.clock == now
    ensures PreferencesToSave(loaded, useEmojis, showHashtags).Some? && old(db.clock) < now ==>
      forall r :: IsNewest(r, db.preferences) ==>
        LoadUserPreferences(Some(r)) == Settings(useEmojis, showHashtags, loaded.defaultLength, loaded.defaultLanguage)
  {
    var row := db.GetUserPreferences();
    loaded := LoadUserPreferences(row);
    var toSave := PreferencesToSave(loaded, useEmojis, showHashtags);
    if toSave.Some? {
      ghost var before := db.preferences;
      var s := toSave.value;
      db.SaveUserPreferences(now, s.useEmojis, s.showHashtags, s.defaultLength, s.defaultLanguage);
      ghost var written := Row(db.lastPreferencesId, now, StoredPreferences(s));
      assert db.preferences == before + [written];
      forall r | IsNewest(r, db.preferences) && old(db.clock) < now
        ensures LoadUserPreferences(Some(r)) == s
      {
        NewestIsStrictlyLatest(before, written, r);
        LoadAfterSave(s, written.id, now);
      }
    }
  }

  /** The sidebar's test `template[3] == template_category`, as a row filter. */
  function InCategory(category: string): (r: Row<Template> -> bool)
  {
    (t: Row<Template>) => t.data.category == category
  }

  /** The sidebar's template loop: the templates offered for the selected category, in
      stored order. */
  method OfferedTemplates(templates: seq<Row<Template>>, category: string) returns (offered: seq<Row<Template>>)
    ensures offered == Filter(templates, InCategory(category))
    ensures forall t :: t in offered <==> t in templates && t.data.category == category
  {
    offered := [];
    for i := 0 to |templates|
      invariant offered == Filter(templates[..i], InCategory(category))
    {
      FilterAppendOne(templates[..i], templates[i], InCategory(category));
      assert templates[..i] + [templates[i]] == templates[..i + 1];
      if templates[i].data.category == category {
        offered := offered + [templates[i]];
      }
    }
    assert templates[..|templates|] == templates;
  }

  /** A template saved with the "Custom" category is never offered: the selector has no
      such choice. */
  lemma CustomTemplatesNeverOffered(templates: seq<Row<Template>>, k: nat)
    requires k < |TemplateCategories|
    ensures forall t :: t in Filter(templates, InCategory(TemplateCategories[k])) ==> t.data.category != CustomCategory
  {
    assert CustomCategory !in TemplateCategories;
    assert TemplateCategories[k] in TemplateCategories;
  }

  const Hash := "#"
  const LinkedInTag := "#LinkedIn"
  const GrowthTag := "#ProfessionalGrowth"
  const CareerTag := "#CareerDevelopment"

  function IsNotSpace(c: char): (r: bool)
  {
    c != ' '
  }

  /** Python `topic.replace(' ', '')`: every character but the spaces, each as often as in
      the topic; a topic without spaces is returned as it is. */
  function WithoutSpaces(topic: string): (r: string)
    ensures multiset(r) == multiset(topic)[' ' := 0]
    ensures forall c :: c in r <==> c in topic && c != ' '
    ensures ' ' !in topic ==> r == topic
  {
    FilterMultiset(topic, IsNotSpace);
    if ' ' !in topic then
      FilterKeepsAll(topic, IsNotSpace);
      Filter(topic, IsNotSpace)
    else
      Filter(topic, IsNotSpace)
  }

  /** Removing spaces works piece by piece, so the characters keep their order. */
  lemma WithoutSpacesConcat(a: string, b: string)
    ensures WithoutSpaces(a + b) == WithoutSpaces(a) + WithoutSpaces(b)
  {
    FilterConcat(a, b, IsNotSpace);
  }

  /** The four suggested hashtags: the topic's own tag, then three fixed ones. */
  function HashtagList(topic: string): (tags: seq<string>)
    ensures |tags| == 4
    ensures tags[0] == Hash + WithoutSpaces(topic)
    ensures tags[1..] == [LinkedInTag, GrowthTag, CareerTag]
  {
    [Hash + WithoutSpaces(topic), LinkedInTag, GrowthTag, CareerTag]
  }

  /** The hashtag line: the four tags joined by single spaces. */
  function SuggestedHashtags(topic: string): (r: string)
  {
    Join(HashtagList(topic), " ")
  }

  /** No suggested tag holds a space. */
  lemma HashtagsHaveNoSpaces(topic: string)
    ensures forall k :: 0 <= k < 4 ==> ' ' !in HashtagList(topic)[k]
  {
    var tags := HashtagList(topic);
    assert ' ' !in WithoutSpaces(topic);
    assert ' ' !in tags[0] by {
      assert tags[0] == Hash + WithoutSpaces(topic);
    }
  }

  /** Splitting the hashtag line at its spaces gives back exactly the four tags. */
  lemma HashtagLineSplitsIntoFourTags(topic: string)
    ensures Split(SuggestedHashtags(topic), ' ') == HashtagList(topic)
    ensures |Split(SuggestedHashtags(topic), ' ')| == 4
  {
    HashtagsHaveNoSpaces(topic);
    assert " " == [' '];
    SplitJoin(HashtagList(topic), ' ');
  }

  /** Python truthiness of `st.session_state.current_post`: neither `None` nor empty. */
  predicate IsTruthy(post: Option<string>)
  {
    post.Some? && post.value != ""
  }

  /** The guard `generate_clicked or (regenerate_clicked and current_post)`. */
  function ShouldGenerate(generateClicked: bool, regenerateClicked: bool, current: Option<string>): (go: bool)
    ensures generateClicked ==> go
    ensures !generateClicked ==> (go <==> regenerateClicked && IsTruthy(current))
  {
    generateClicked || (regenerateClicked && IsTruthy(current))
  }

  /** The browser session: the post on display, if any. */
  class Session {
    var currentPost: Option<string>

    /** A new session shows no post. */
    constructor ()
      ensures currentPost == None
    {
      currentPost := None;
    }

    /** The Use button of an offered template puts its content on display. */
    method UseTemplate(t: Row<Template>)
      modifies this
      ensures currentPost == Some(t.data.content)
    {
      currentPost := Some(t.data.content);
    }

    /** The Generate and Regenerate buttons. When the guard holds, the prompt for the
        selections is built and sent, the reply becomes the current post, and it is saved once
        as a genuine post with the selected topic, length and language. Otherwise nothing
        happens. */
    method GeneratePost(db: DatabaseHelper, now: nat, generateClicked: bool, regenerateClicked: bool,
                        tag: string, length: string, language: string, useEmojis: bool,
                        examples: seq<string>, reply: string)
      returns (prompt: Option<string>)
      requires db.Valid() && db.clock <= now
      modifies this, db`posts, db`lastPostId, db`clock
      ensures db.Valid()
      ensures ShouldGenerate(generateClicked, regenerateClicked, old(currentPost)) ==>
        prompt == Some(PostGenerator.Prompt(length, language, tag, useEmojis, examples)) && currentPost == Some(reply)
      ensures ShouldGenerate(generateClicked, regenerateClicked, old(currentPost)) ==>
        && db.posts == old(db.posts) + [Row(old(db.lastPostId) + 1, now, Post(reply, tag, length, language, 0, 0))]
        && db.lastPostId == old(db.lastPostId) + 1
        && db.clock == now
      ensures !ShouldGenerate(generateClicked, regenerateClicked, old(currentPost)) ==>
        && prompt == None
        && currentPost == old(currentPost)
        && db.posts == old(db.posts) && db.lastPostId == old(db.lastPostId) && db.clock == old(db.clock)
    {
      prompt := None;
      if generateClicked || (regenerateClicked && currentPost.Some? && currentPost.value != "") {
        var p := PostGenerator.GetPrompt(length, language, tag, useEmojis, examples);
        prompt := Some(p);
        currentPost := Some(reply);
        db.SavePost(now, reply, tag, length, language);
      }
    }

    /** "Save as Template": the post on display is stored in the "Custom" category under a
        name made of "Template_" and the time stamp. The button is shown only while a post
        is on display. */
    method SaveAsTemplate(db: DatabaseHelper, now: nat, stamp: string)
      requires db.Valid() && db.clock <= now
      requires IsTruthy(currentPost)
      modifies db`templates, db`lastTemplateId, db`clock
      ensures db.Valid()
      ensures db.templates == old(db.templates) +
        [Row(old(db.lastTemplateId) + 1, now, Template(TemplatePrefix + stamp, currentPost.value, CustomCategory))]
      ensures db.lastTemplateId == old(db.lastTemplateId) + 1 && db.clock == now
      ensures TemplatePrefix <= db.templates[|db.templates| - 1].data.name
      ensures db.templates[|db.templates| - 1].data.category !in TemplateCategories
    {
      db.SaveTemplate(now, TemplatePrefix + stamp, currentPost.value, CustomCategory);
      assert CustomCategory !in TemplateCategories;
    }

    /** The main column of one rerun: generate (or regenerate) a post, then save the shown post
        as a custom template when that button was clicked, both at the same instant `now`. */
    method GenerateAndSave(db: DatabaseHelper, now: nat, generateClicked: bool, regenerateClicked: bool,
                           tag: string, length: string, language: string, useEmojis: bool,
                           examples: seq<string>, reply: string, saveClicked: bool, stamp: string)
      returns (prompt: Option<string>)
      requires db.Valid() && db.clock <= now
      modifies this, db`posts, db`lastPostId, db`templates, db`lastTemplateId, db`clock
      ensures db.Valid() && old(db.clock) <= db.clock <= now
      ensures prompt.Some? <==> ShouldGenerate(generateClicked, regenerateClicked, old(currentPost))
      ensures prompt.Some? ==> prompt.value == PostGenerator.Prompt(length, language, tag, useEmojis, examples)
      ensures prompt.Some? ==> currentPost == Some(reply)
      ensures prompt.Some? ==>
        db.posts == Inserted(old(db.posts), old(db.lastPostId), now, Post(reply, tag, length, language, 0, 0))
      ensures prompt.None? ==> currentPost == old(currentPost) && db.posts == old(db.posts)
      ensures saveClicked && IsTruthy(currentPost) ==>
        db.templates == Inserted(old(db.templates), old(db.lastTemplateId), now,
          Template(TemplatePrefix + stamp, currentPost.value, CustomCategory))
      ensures !(saveClicked && IsTruthy(currentPost)) ==> db.templates == old(db.templates)
      ensures db.lastPostId == old(db.lastPostId) + (if prompt.Some? then 1 else 0)
      ensures db.lastTemplateId == old(db.lastTemplateId) + (if saveClicked && IsTruthy(currentPost) then 1 else 0)
      ensures db.clock == if prompt.Some? || (saveClicked && IsTruthy(currentPost)) then now else old(db.clock)
    {
      prompt := GeneratePost(db, now, generateClicked, regenerateClicked, tag, length, language,
                             useEmojis, examples, reply);
      if saveClicked && currentPost.Some? && currentPost.value != "" {
        SaveAsTemplate(db, now, stamp);
      }
    }

    /** The sidebar of one rerun: preferences are loaded and saved back when changed, the
        templates of the chosen category are offered, the Use button of the offered template
        at position `used` (if one was clicked) puts its content on display, and the first
        page of the post history is listed. */
    method Sidebar(db: DatabaseHelper, now: nat, useEmojis: bool, showHashtags: bool, category: string,
                   used: Option<nat>)
      returns (loaded: Settings, offered: seq<Row<Template>>, history: seq<Row<Post>>)
      requires db.Valid() && db.clock <= now
      requires used.Some? ==> used.value < |Filter(db.templates, InCategory(category))|
      modifies this, db`preferences, db`lastPreferencesId, db`clock
      ensures db.Valid() && old(db.clock) <= db.clock <= now
      ensures old(db.preferences) == [] ==> loaded == DefaultSettings
      ensures old(db.preferences) != [] ==>
        exists r :: IsNewest(r, old(db.preferences)) && loaded == LoadUserPreferences(Some(r))
      ensures PreferencesToSave(loaded, useEmojis, showHashtags).None? ==> db.preferences == old(db.preferences)
      ensures PreferencesToSave(loaded, useEmojis, showHashtags).Some? ==>
        db.preferences == Inserted(old(db.preferences), old(db.lastPreferencesId), now,
          StoredPreferences(PreferencesToSave(loaded, useEmojis, showHashtags).value))
      ensures offered == Filter(db.templates, InCategory(category))
      ensures used.Some? ==> currentPost == Some(offered[used.value].data.content)
      ensures used.None? ==> currentPost == old(currentPost)
      ensures db.lastPreferencesId ==
        old(db.lastPreferencesId) + (if PreferencesToSave(loaded, useEmojis, showHashtags).Some? then 1 else 0)
      ensures db.clock == if PreferencesToSave(loaded, useEmojis, showHashtags).Some? then now else old(db.clock)
      ensures forall x :: x in history ==> x in db.posts && x.data.isTemplate == 0
      ensures |history| == Min(10, |Filter(db.posts, IsGenuinePost)|)
      ensures forall i :: 0 <= i < |history| ==> RankedAt(history[i], Filter(db.posts, IsGenuinePost), i)
      ensures forall i, j :: 0 <= i < j < |history| ==> history[i].id != history[j].id
    {
      loaded := SyncPreferences(db, now, useEmojis, showHashtags);
      var templates := db.GetTemplates();
      offered := OfferedTemplates(templates, category);
      if used.Some? {
        UseTemplate(offered[used.value]);
      }
      history := db.GetAllPosts();
    }

    /** One whole rerun of `main` at instant `now`, in the order of the script: the sidebar
        loads the settings and writes them back when a checkbox changed, offers the templates
        of the selected category (whose Use button may put one on display) and lists the post
        history; then the Generate/Regenerate guard runs on the post on display, with the
        emoji checkbox's value, and "Save as Template" stores the post on display when
        clicked. */
    method Run(db: DatabaseHelper, now: nat, useEmojis: bool, showHashtags: bool, category: string,
               used: Option<nat>, generateClicked: bool, regenerateClicked: bool, tag: string, length: string,
               language: string, examples: seq<string>, reply: string, saveClicked: bool, stamp: string)
      returns (loaded: Settings, offered: seq<Row<Template>>, history: seq<Row<Post>>, prompt: Option<string>)
      requires db.Valid() && db.clock <= now
      requires used.Some? ==> used.value < |Filter(db.templates, InCategory(category))|
      modifies this, db`preferences, db`lastPreferencesId, db`posts, db`lastPostId,
               db`templates, db`lastTemplateId, db`clock
      ensures db.Valid() && old(db.clock) <= db.clock <= now
      ensures old(db.preferences) == [] ==> loaded == DefaultSettings
      ensures old(db.preferences) != [] ==>
        exists r :: IsNewest(r, old(db.preferences)) && loaded == LoadUserPreferences(Some(r))
      ensures PreferencesToSave(loaded, useEmojis, showHashtags).None? ==> db.preferences == old(db.preferences)
      ensures PreferencesToSave(loaded, useEmojis, showHashtags).Some? ==>
        db.preferences == Inserted(old(db.preferences), old(db.lastPreferencesId), now,
          StoredPreferences(PreferencesToSave(loaded, useEmojis, showHashtags).value))
      ensures offered == Filter(old(db.templates), InCategory(category))
      ensures forall x :: x in history ==> x in old(db.posts) && x.data.isTemplate == 0
      ensures |history| == Min(10, |Filter(old(db.posts), IsGenuinePost)|)
      ensures forall i :: 0 <= i < |history| ==> RankedAt(history[i], Filter(old(db.posts), IsGenuinePost), i)
      ensures forall i, j :: 0 <= i < j < |history| ==> history[i].id != history[j].id
      ensures var shown := if used.Some? then Some(offered[used.value].data.content) else old(currentPost);
        prompt.Some? <==> ShouldGenerate(generateClicked, regenerateClicked, shown)
      ensures prompt.Some? ==> prompt.value == PostGenerator.Prompt(length, language, tag, useEmojis, examples)
      ensures prompt.Some? ==> currentPost == Some(reply)
      ensures prompt.Some? ==>
        db.posts == Inserted(old(db.posts), old(db.lastPostId), now, Post(reply, tag, length, language, 0, 0))
      ensures var shown := if used.Some? then Some(offered[used.value].data.content) else old(currentPost);
        prompt.None? ==> currentPost == shown && db.posts == old(db.posts)
      ensures saveClicked && IsTruthy(currentPost) ==>
        db.templates == Inserted(old(db.templates), old(db.lastTemplateId), now,
          Template(TemplatePrefix + stamp, currentPost.value, CustomCategory))
      ensures !(saveClicked && IsTruthy(currentPost)) ==> db.templates == old(db.templates)
      ensures db.lastPreferencesId ==
        old(db.lastPreferencesId) + (if PreferencesToSave(loaded, useEmojis, showHashtags).Some? then 1 else 0)
      ensures db.lastPostId == old(db.lastPostId) + (if prompt.Some? then 1 else 0)
      ensures db.lastTemplateId == old(db.lastTemplateId) + (if saveClicked && IsTruthy(currentPost) then 1 else 0)
      ensures db.clock == if PreferencesToSave(loaded, useEmojis, showHashtags).Some? || prompt.Some?
                             || (saveClicked && IsTruthy(currentPost)) then now else old(db.clock)
    {
      loaded, offered, history := Sidebar(db, now, useEmojis, showHashtags, category, used);
      ghost var shown := currentPost;
      assert shown == if used.Some? then Some(offered[used.value].data.content) else old(currentPost);
      prompt := GenerateAndSave(db, now, generateClicked, regenerateClicked, tag, length, language,
                                useEmojis, examples, reply, saveClicked, stamp);
    }
  }

  /** A post generated at a clock reading later than every stored row heads the post history
      that the next run lists. */
  method GeneratedPostHeadsHistory(session: Session, db: DatabaseHelper, now: nat, tag: string, length: string,
                                   language: string, useEmojis: bool, examples: seq<string>, reply: string)
    returns (history: seq<Row<Post>>)
    requires db.Valid() && db.clock < now
    modifies session, db`posts, db`lastPostId, db`clock
    ensures |history| >= 1
    ensures history[0] == Row(old(db.lastPostId) + 1, now, Post(reply, tag, length, language, 0, 0))
  {
    ghost var before := db.posts;
    var prompt := session.GeneratePost(db, now, true, false, tag, length, language, useEmojis, examples, reply);
    ghost var row := Row(old(db.lastPostId) + 1, now, Post(reply, tag, length, language, 0, 0));
    assert db.posts == before + [row];
    history := db.GetAllPosts();
    ghost var genuine := Filter(db.posts, IsGenuinePost);
    assert row in genuine;
    forall z | z in genuine && z != row ensures z.createdAt < row.createdAt {
      assert z in before;
    }
    StrictlyNewestRanksFirst(genuine, history[0], row);
  }
}
