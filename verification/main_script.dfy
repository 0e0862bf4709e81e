/**
 * main.py: the first, single-article script. It picks the first Gemini
 * model the key may use, refuses to start without a mail password or a
 * model, and turns the newest feed entry into one mailed article.
 */
module MainScript {
  import opened Common
  import opened PyStr
  import opened Discovery
  import opened Retry
  import opened BotCode

  // ---------------------------------------------------------------------
  // ai_write_article

  /** The cleanup applied to a reply: the fences are dropped, then the text is stripped. */
  function Clean(text: string): (r: string)
    ensures exists a :: TrimmedAt(StripFences(text), r, a)
    ensures !Contains(r, "```")
    ensures |r| > 0 ==> !IsSpace(r[0]) && !IsSpace(r[|r| - 1])
  {
    var r := Strip(StripFences(text));
    StripKeepsAbsent(StripFences(text), "```");
    r
  }

  /** A cleaned article is left alone by a second cleanup. */
  lemma CleanIdempotent(text: string)
    ensures Clean(Clean(text)) == Clean(text)
  {
    var c := Clean(text);
    StripIdempotent(StripFences(text));
    CleanFixpoint(c);
  }

  /** Cleanup changes exactly the replies that carry a fence or surrounding whitespace. */
  lemma CleanFixpoint(text: string)
    ensures Clean(text) == text <==> !Contains(text, "```") && Strip(text) == text
  {
    if !Contains(text, "```") {
      if Contains(text, "```html") {
        assert IsPrefix("```", "```html");
        OccursContains("```html", "```", 0);
        ContainsTrans(text, "```html", "```");
      }
      ReplaceAbsent(text, "```html", "");
      ReplaceAbsent(text, "```", "");
      assert StripFences(text) == text;
    }
  }

  /**
   * `ai_write_article`: no model gives None at once; a reply gives its
   * cleaned text; an exception from the call gives None.
   */
  function AiWriteArticle(model: Option<string>, reply: Outcome): (r: Option<string>)
    ensures r.Some? <==> model.Some? && reply.Reply?
    ensures r.Some? ==> exists a :: TrimmedAt(StripFences(reply.text), r.value, a)
    ensures r.Some? ==> !Contains(r.value, "```") && Strip(r.value) == r.value
  {
    if model.None? then None
    else match reply
      case Reply(text) =>
        StripIdempotent(StripFences(text));
        Some(Clean(text))
      case _ => None
  }

  // ---------------------------------------------------------------------
  // the script

  /** How a run of the script ends: its exit status, whether it read the feed, the mail it handed to SMTP. */
  datatype Exit = Exit(status: nat, fetched: bool, mail: Option<Mail>)

  /**
   * The `__main__` block. The model is chosen when the module loads, from
   * the listing; the password guard and the model guard both exit with
   * status 1 before the feed is read. Only the newest entry is written
   * about, and a mail is handed over only for a non-empty article.
   */
  function MainRun(password: Option<string>, l: Listing, builds: string -> bool, reply: Outcome,
                   entries: seq<Entry>): (r: Exit)
    ensures r.status == 1 <==> !Present(password) || GetValidModel(l, builds).None?
    ensures r.status == 1 ==> !r.fetched && r.mail.None?
    ensures r.status != 1 ==> r.status == 0 && r.fetched
    ensures r.mail.Some? <==> r.status == 0 && |entries| > 0
                              && AiWriteArticle(GetValidModel(l, builds), reply).Some?
                              && |AiWriteArticle(GetValidModel(l, builds), reply).value| > 0
    ensures r.mail.Some? ==>
      r.mail.value.subject == entries[0].title
      && r.mail.value.body == AiWriteArticle(GetValidModel(l, builds), reply).value
      && |r.mail.value.body| > 0 && !Contains(r.mail.value.body, "```")
  {
    var model := GetValidModel(l, builds);
    if !Present(password) then Exit(1, false, None)
    else if model.None? then Exit(1, false, None)
    else if |entries| == 0 then Exit(0, true, None)
    else
      var html := AiWriteArticle(model, reply);
      if html.Some? && |html.value| > 0 then Exit(0, true, Some(Mail(entries[0].title, html.value)))
      else Exit(0, true, None)
  }

  /** A missing password ends the run the same way whatever the listing, the reply and the feed. */
  lemma NoPasswordNoRun(password: Option<string>, l: Listing, builds: string -> bool, reply: Outcome,
                        entries: seq<Entry>, l': Listing, builds': string -> bool, reply': Outcome,
                        entries': seq<Entry>)
    requires !Present(password)
    ensures MainRun(password, l, builds, reply, entries) == MainRun(password, l', builds', reply', entries')
  {
  }

  /** A listing without a usable Gemini model stops the script before the feed is read. */
  lemma NoGeminiNoRun(password: Option<string>, l: Listing, builds: string -> bool, reply: Outcome,
                      entries: seq<Entry>)
    requires forall i :: 0 <= i < |l.models| ==> !Usable(l.models[i])
    ensures MainRun(password, l, builds, reply, entries).status == 1
    ensures !MainRun(password, l, builds, reply, entries).fetched
  {
    GetValidModelCorrect(l, builds);
  }

  /**
   * With a password and a first usable model that can be built, a
   * fence-free reply with no surrounding whitespace is mailed verbatim
   * under the newest entry's title.
   */
  lemma CleanReplyMailed(password: Option<string>, l: Listing, builds: string -> bool, text: string,
                         entries: seq<Entry>)
    requires Present(password) && |entries| > 0
    requires exists i :: FirstUsableAt(l.models, i) && builds(l.models[i].name)
    requires |text| > 0 && !Contains(text, "```") && Strip(text) == text
    ensures MainRun(password, l, builds, Reply(text), entries).mail == Some(Mail(entries[0].title, text))
  {
    var i :| FirstUsableAt(l.models, i) && builds(l.models[i].name);
    FirstGeminiAt(l.models, i);
    var model := GetValidModel(l, builds);
    assert model == Some(l.models[i].name);
    CleanFixpoint(text);
    assert AiWriteArticle(model, Reply(text)) == Some(text);
  }

  /**
   * When building the first usable model raises, `get_valid_model` gives
   * None and the script stops before the feed is read, even though later
   * models in the listing might have worked.
   */
  lemma UnbuildableNoRun(password: Option<string>, l: Listing, builds: string -> bool, reply: Outcome,
                         entries: seq<Entry>)
    requires exists i :: FirstUsableAt(l.models, i) && !builds(l.models[i].name)
    ensures MainRun(password, l, builds, reply, entries).status == 1
    ensures !MainRun(password, l, builds, reply, entries).fetched
  {
    GetValidModelCorrect(l, builds);
  }
}
