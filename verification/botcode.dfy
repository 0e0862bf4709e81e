/**
 * bot_code.py: image placeholders, the writer's three-try loop, the
 * credential guard of the mail sender, and the daily run that picks an
 * unseen feed entry and records its link once the mail went out.
 */
module BotCode {
  import opened Common
  import opened PyStr
  import opened Markers
  import opened Retry

  // ---------------------------------------------------------------------
  // Image placeholders

  /**
   * The characters of `[IMG:s*(.*?)]`, which `re` reads as one character
   * class, not as the bracketed placeholder: I M G : s * ( . ? ).
   */
  const ClassChars: set<char> := {'I', 'M', 'G', ':', 's', '*', '(', '.', '?', ')'}

  /**
   * `inject_images_into_content` as written: `re.sub` calls the replacer
   * on the first class character, and its `match.group(1)` raises because
   * the pattern has no group (None stands for the exception).
   */
  function InjectAsWritten(text: string): (r: Option<string>)
    ensures r.Some? <==> forall i :: 0 <= i < |text| ==> text[i] !in ClassChars
    ensures r.Some? ==> r.value == text
    decreases |text|
  {
    if |text| == 0 then Some("")
    else if text[0] in ClassChars then None
    else
      match InjectAsWritten(text[1..])
      case None => None
      case Some(t) => Some([text[0]] + t)
  }

  /**
   * The evident intent, `\[IMG:\s*(.*?)\]`: each placeholder becomes the
   * figure `figure` draws for its description.
   */
  function InjectIntended(text: string, figure: string -> string): (r: string)
    ensures !Contains(text, "[IMG:") ==> r == text
  {
    var r := Rewrite(text, BracketMarker, figure);
    if Contains(text, "[IMG:") then r
    else RewriteAbsent(text, BracketMarker, figure); r
  }

  /** The placeholder the prompt asks for makes the code as written raise. */
  lemma PlaceholderRaises(desc: string, t: string)
    ensures InjectAsWritten("[IMG:" + desc + "]" + t) == None
  {
    var s := "[IMG:" + desc + "]" + t;
    assert s[1] == 'I';
  }

  /**
   * With the intended pattern a one-line placeholder becomes its figure,
   * whatever whitespace follows `[IMG:`, as in the `[IMG: ...]` form the
   * prompt asks for.
   */
  lemma PlaceholderDrawn(gap: string, desc: string, t: string, figure: string -> string)
    requires forall i :: 0 <= i < |gap| ==> IsSpace(gap[i])
    requires Lacks(desc, '\n') && Lacks(desc, ']') && (|desc| == 0 || !IsSpace(desc[0]))
    ensures InjectIntended("[IMG:" + (gap + (desc + ("]" + t))), figure) == figure(desc) + InjectIntended(t, figure)
  {
    LacksNoEarlyClose(desc, BracketMarker.close);
    RewriteSingle(gap, desc, t, BracketMarker, figure);
  }

  // ---------------------------------------------------------------------
  // ai_writer

  const WriterModel := "gemini-flash-latest"
  const WriterFallback := "gemini-pro"

  /**
   * What the writer does with a non-empty response: strip the fences,
   * inject the images (None when that raises) and append the button.
   */
  function Polish(inject: string -> Option<string>, button: string, text: string): Option<string>
  {
    match inject(StripFences(text))
    case Some(html) => Some(html + button)
    case None => None
  }

  /** A try whose response was non-empty and survived processing. */
  predicate Written(inject: string -> Option<string>, button: string, t: Try)
  {
    t.Called? && t.answer.Reply? && |t.answer.text| > 0 && Polish(inject, button, t.answer.text).Some?
  }

  /** A try that raised inside the `try`: an API error, or processing that raised. */
  predicate Raising(inject: string -> Option<string>, button: string, t: Try)
  {
    t.Called? && (t.answer.Quota? || t.answer.Failure?
                  || (|t.answer.text| > 0 && Polish(inject, button, t.answer.text).None?))
  }

  /** Attempt `a`: its response, with the 2 s sleep of the `except` when it raised. */
  function TryOnce(api: Api, model: string, inject: string -> Option<string>, button: string, a: nat): Step
  {
    var got := Called(api.respond(a));
    Step(0, a, model, got, if Raising(inject, button, got) then Some(2) else None)
  }

  /**
   * `for attempt in range(3)`, from attempt `a`; the call index is the
   * attempt. An empty response moves on without sleeping.
   */
  function Attempts(api: Api, model: string, inject: string -> Option<string>, button: string, a: nat): Run
    requires a <= 3
    decreases 3 - a
  {
    if a == 3 then Run(Returned(None), [])
    else
      var step := TryOnce(api, model, inject, button, a);
      if Written(inject, button, step.got) then Run(Returned(Polish(inject, button, step.got.answer.text)), [step])
      else Then(step, Attempts(api, model, inject, button, a + 1))
  }

  /**
   * `ai_writer`: without an API key nothing is generated; the model is
   * `gemini-flash-latest`, or `gemini-pro` when that cannot be built, and
   * a failure to build the second escapes.
   */
  function AiWriter(key: Option<string>, api: Api, inject: string -> Option<string>, button: string): Run
  {
    if key.None? || |key.value| == 0 then Run(Returned(None), [])
    else if api.builds(WriterModel) then Attempts(api, WriterModel, inject, button, 0)
    else if api.builds(WriterFallback) then Attempts(api, WriterFallback, inject, button, 0)
    else Run(Raised, [])
  }

  /** Without a key the writer returns None before any call. */
  lemma AiWriterNoKey(key: Option<string>, api: Api, inject: string -> Option<string>, button: string)
    requires key.None? || key.value == ""
    ensures AiWriter(key, api, inject, button).finish == Returned(None)
    ensures |AiWriter(key, api, inject, button).trace| == 0
  {
  }

  /** The k-th try is attempt a + k with the (a + k)-th response, followed by a 2 s sleep exactly when it raised. */
  predicate TriedInTurn(api: Api, model: string, inject: string -> Option<string>, button: string,
                        a: nat, tr: seq<Step>)
  {
    forall k :: 0 <= k < |tr| ==>
      tr[k].attempt == a + k && tr[k].model == model && tr[k].got == Called(api.respond(a + k))
      && tr[k].slept == (if Raising(inject, button, tr[k].got) then Some(2) else None)
  }

  lemma {:induction false} AttemptsTrace(api: Api, model: string, inject: string -> Option<string>, button: string, a: nat)
    requires a <= 3
    ensures var tr := Attempts(api, model, inject, button, a).trace;
      |tr| <= 3 - a && TriedInTurn(api, model, inject, button, a, tr)
    decreases 3 - a
  {
    if a < 3 {
      var step := TryOnce(api, model, inject, button, a);
      if !Written(inject, button, step.got) {
        AttemptsTrace(api, model, inject, button, a + 1);
        TurnThen(api, model, inject, button, a, step, Attempts(api, model, inject, button, a + 1).trace);
      }
    }
  }

  /** The turn facts for `[step] + rest`, from those for `rest`. */
  lemma TurnThen(api: Api, model: string, inject: string -> Option<string>, button: string,
                 a: nat, step: Step, rest: seq<Step>)
    requires step.attempt == a && step.model == model && step.got == Called(api.respond(a))
    requires step.slept == (if Raising(inject, button, step.got) then Some(2) else None)
    requires TriedInTurn(api, model, inject, button, a + 1, rest)
    ensures TriedInTurn(api, model, inject, button, a, [step] + rest)
  {
    var tr := [step] + rest;
    forall k | 0 < k < |tr|
      ensures tr[k] == rest[k - 1]
    {
    }
  }

  /**
   * A run of `n` attempts returns the first processed response, and None
   * only when all `n` attempts were used without one.
   */
  predicate FirstWritten(inject: string -> Option<string>, button: string, r: Run, n: nat)
  {
    var tr := r.trace;
    (forall k :: 0 <= k < |tr| - 1 ==> !Written(inject, button, tr[k].got))
    && r.finish.Returned?
    && (r.finish.value.Some? ==>
          (|tr| > 0 && Written(inject, button, tr[|tr| - 1].got)
           && r.finish.value == Polish(inject, button, tr[|tr| - 1].got.answer.text)))
    && (r.finish.value.None? ==>
          (|tr| == n && forall k :: 0 <= k < |tr| ==> !Written(inject, button, tr[k].got)))
  }

  lemma {:induction false} AttemptsResult(api: Api, model: string, inject: string -> Option<string>, button: string, a: nat)
    requires a <= 3
    ensures FirstWritten(inject, button, Attempts(api, model, inject, button, a), 3 - a)
    decreases 3 - a
  {
    if a < 3 {
      var step := TryOnce(api, model, inject, button, a);
      if Written(inject, button, step.got) {
        ResultOne(inject, button, step, 3 - a);
      } else {
        AttemptsResult(api, model, inject, button, a + 1);
        ResultThen(inject, button, step, Attempts(api, model, inject, button, a + 1), 3 - a);
      }
    }
  }

  lemma ResultOne(inject: string -> Option<string>, button: string, step: Step, n: nat)
    requires Written(inject, button, step.got)
    ensures FirstWritten(inject, button, Run(Returned(Polish(inject, button, step.got.answer.text)), [step]), n)
  {
  }

  /** The result facts for `[step] + rest`, from those for `rest`. */
  lemma ResultThen(inject: string -> Option<string>, button: string, step: Step, rest: Run, n: nat)
    requires !Written(inject, button, step.got) && n > 0
    requires FirstWritten(inject, button, rest, n - 1)
    ensures FirstWritten(inject, button, Then(step, rest), n)
  {
    var tr := Then(step, rest).trace;
    forall k | 0 < k < |tr|
      ensures tr[k] == rest.trace[k - 1]
    {
    }
    assert tr[0] == step;
  }

  /**
   * With a key and a buildable model the writer makes at most three calls,
   * in turn, sleeping 2 s after each that raised, and returns the first
   * processed response; it raises only when neither model can be built.
   */
  lemma AiWriterFacts(key: Option<string>, api: Api, inject: string -> Option<string>, button: string)
    requires key.Some? && |key.value| > 0
    ensures var r := AiWriter(key, api, inject, button);
      var model := if api.builds(WriterModel) then WriterModel else WriterFallback;
      (r.finish == Raised <==> !api.builds(WriterModel) && !api.builds(WriterFallback))
      && (r.finish != Raised ==>
            (|r.trace| <= 3 && TriedInTurn(api, model, inject, button, 0, r.trace)
             && FirstWritten(inject, button, r, 3)))
  {
    var model := if api.builds(WriterModel) then WriterModel else WriterFallback;
    if api.builds(WriterModel) || api.builds(WriterFallback) {
      AttemptsTrace(api, model, inject, button, 0);
      AttemptsResult(api, model, inject, button, 0);
    }
  }

  /** As written, the writer succeeds only on a response free of every class character. */
  lemma AsWrittenNeedsPlainReply(key: Option<string>, api: Api, button: string)
    ensures var r := AiWriter(key, api, InjectAsWritten, button);
      r.finish == Returned(None) || r.finish == Raised
      || (|r.trace| > 0 && r.trace[|r.trace| - 1].got.Called? && r.trace[|r.trace| - 1].got.answer.Reply?
          && var text := StripFences(r.trace[|r.trace| - 1].got.answer.text);
          (forall i :: 0 <= i < |text| ==> text[i] !in ClassChars)
          && r.finish == Returned(Some(text + button)))
  {
    if key.Some? && |key.value| > 0 {
      if api.builds(WriterModel) {
        AttemptsResult(api, WriterModel, InjectAsWritten, button, 0);
      } else if api.builds(WriterFallback) {
        AttemptsResult(api, WriterFallback, InjectAsWritten, button, 0);
      }
    }
  }

  // ---------------------------------------------------------------------
  // send_email_to_blogger

  /** `GMAIL_USER`, `GMAIL_APP_PASSWORD` and `BLOGGER_EMAIL`. */
  datatype Credentials = Credentials(sender: Option<string>, password: Option<string>, recipient: Option<string>)

  /** A truthy environment value: set and non-empty. */
  predicate Present(v: Option<string>)
  {
    v.Some? && |v.value| > 0
  }

  /** Whether the SMTP server was contacted, and the boolean the function returns. */
  datatype Send = Send(contacted: bool, ok: bool)

  /** The credential guard; `delivered` is the outcome of the SMTP exchange. */
  function SendToBlogger(c: Credentials, delivered: bool): (r: Send)
    ensures r.contacted <==> Present(c.sender) && Present(c.password) && Present(c.recipient)
    ensures r.ok <==> r.contacted && delivered
  {
    if !Present(c.sender) || !Present(c.password) || !Present(c.recipient) then Send(false, false)
    else Send(true, delivered)
  }

  // ---------------------------------------------------------------------
  // main

  /** The feed entries whose link is not in the history, in feed order. */
  function Candidates(feed: seq<Entry>, history: seq<string>): (r: seq<Entry>)
    ensures |r| <= |feed|
    decreases |feed|
  {
    if |feed| == 0 then []
    else (if feed[0].link !in history then [feed[0]] else []) + Candidates(feed[1..], history)
  }

  lemma {:induction false} CandidatesAppend(a: seq<Entry>, b: seq<Entry>, history: seq<string>)
    ensures Candidates(a + b, history) == Candidates(a, history) + Candidates(b, history)
    decreases |a|
  {
    if |a| == 0 {
      assert a + b == b;
    } else {
      assert (a + b)[1..] == a[1..] + b;
      CandidatesAppend(a[1..], b, history);
    }
  }

  /** An entry is a candidate exactly when it is in the feed and its link is new. */
  lemma {:induction false} CandidatesMembers(feed: seq<Entry>, history: seq<string>, e: Entry)
    ensures e in Candidates(feed, history) <==> e in feed && e.link !in history
    decreases |feed|
  {
    if |feed| > 0 {
      CandidatesMembers(feed[1..], history, e);
      assert feed == [feed[0]] + feed[1..];
    }
  }

  function Min(a: int, b: int): int
  {
    if a <= b then a else b
  }

  /** The five emojis of the subject line. */
  const Emojis: seq<char> := ['\U{1F525}', '\U{26A1}', '\U{1F4A1}', '\U{1F680}', '\U{1F4E2}']

  /** `f"{emo} 【{keyword}】{title}"`. */
  function Subject(emoji: nat, keyword: string, title: string): (r: string)
    requires emoji < 5
    ensures |r| == 4 + |keyword| + |title|
    ensures r[0] in Emojis && r[1] == ' ' && r[2] == '\U{3010}' && r[3 + |keyword|] == '\U{3011}'
    ensures r[3..3 + |keyword|] == keyword && r[4 + |keyword|..] == title
  {
    [Emojis[emoji]] + " \U{3010}" + keyword + "\U{3011}" + title
  }

  /** What the run needs from outside: the key, the API, drawing, the button, mail. */
  datatype World = World(key: Option<string>, api: Api, figure: string -> string, button: string,
                         creds: Credentials, delivered: bool)

  datatype Mail = Mail(subject: string, body: string)

  /** The chosen entry, the mail handed to the sender, whether it went out, and the new history. */
  datatype Day = Day(picked: Option<Entry>, mail: Option<Mail>, sent: bool, history: seq<string>)

  /**
   * One run of `main`: `inject` is the placeholder rewriting the writer
   * applies, `pick` is what `random.choice(candidates[:3])` chose and
   * `emoji` the index `random.choice(emojis)` chose. An exception that
   * escapes the writer is caught by `main` and ends the run.
   */
  function RunOnce(feed: seq<Entry>, history: seq<string>, keyword: string, pick: nat, emoji: nat,
                   inject: string -> Option<string>, w: World): (d: Day)
    requires emoji < 5
    requires |Candidates(feed, history)| > 0 ==> pick < Min(3, |Candidates(feed, history)|)
  {
    var c := Candidates(feed, history);
    if |feed| == 0 || |c| == 0 then Day(None, None, false, history)
    else
      var entry := c[..Min(3, |c|)][pick];
      var r := AiWriter(w.key, w.api, inject, w.button);
      if r.finish.Returned? && r.finish.value.Some? && |r.finish.value.value| > 0 then
        var mail := Mail(Subject(emoji, keyword, entry.title), r.finish.value.value);
        var s := SendToBlogger(w.creds, w.delivered);
        Day(Some(entry), Some(mail), s.ok, if s.ok then history + [entry.link] else history)
      else Day(Some(entry), None, false, history)
  }

  /** `main` as written: the writer rewrites placeholders with the one-character-class regex. */
  function Main(feed: seq<Entry>, history: seq<string>, keyword: string, pick: nat, emoji: nat, w: World): Day
    requires emoji < 5
    requires |Candidates(feed, history)| > 0 ==> pick < Min(3, |Candidates(feed, history)|)
  {
    RunOnce(feed, history, keyword, pick, emoji, InjectAsWritten, w)
  }

  /** `main` with the intended `[IMG: description]` rewriting. */
  function MainIntended(feed: seq<Entry>, history: seq<string>, keyword: string, pick: nat, emoji: nat, w: World): Day
    requires emoji < 5
    requires |Candidates(feed, history)| > 0 ==> pick < Min(3, |Candidates(feed, history)|)
  {
    RunOnce(feed, history, keyword, pick, emoji, d => Some(InjectIntended(d, w.figure)), w)
  }

  /** With no new entry nothing is picked, sent or recorded. */
  lemma NothingNew(feed: seq<Entry>, history: seq<string>, keyword: string, pick: nat, emoji: nat,
                   inject: string -> Option<string>, w: World)
    requires emoji < 5 && forall e :: e in feed ==> e.link in history
    ensures Candidates(feed, history) == []
    ensures RunOnce(feed, history, keyword, pick, emoji, inject, w) == Day(None, None, false, history)
  {
    if |Candidates(feed, history)| > 0 {
      var e := Candidates(feed, history)[0];
      CandidatesMembers(feed, history, e);
    }
  }

  /**
   * The picked entry is one of the first three candidates, so its link is
   * new; the history gains exactly that link when the mail went out and
   * is unchanged otherwise.
   */
  lemma RunOnceHistory(feed: seq<Entry>, history: seq<string>, keyword: string, pick: nat, emoji: nat,
                   inject: string -> Option<string>, w: World)
    requires emoji < 5
    requires |Candidates(feed, history)| > 0 ==> pick < Min(3, |Candidates(feed, history)|)
    ensures var d := RunOnce(feed, history, keyword, pick, emoji, inject, w); var c := Candidates(feed, history);
      (d.picked.Some? ==>
         (pick < 3 && pick < |c| && d.picked.value == c[pick]
          && d.picked.value in feed && d.picked.value.link !in history))
      && (d.sent ==> d.picked.Some? && d.mail.Some? && d.history == history + [d.picked.value.link])
      && (!d.sent ==> d.history == history)
      && (d.sent ==> Present(w.creds.sender) && Present(w.creds.password) && Present(w.creds.recipient))
  {
    var c := Candidates(feed, history);
    if |feed| > 0 && |c| > 0 {
      assert c[..Min(3, |c|)][pick] == c[pick];
      CandidatesMembers(feed, history, c[pick]);
    }
  }

  /**
   * With a new entry, the run picks the drawn candidate; it mails exactly
   * when the writer returned a non-empty article, and a mailed run counts
   * as sent exactly when the sender reported success.
   */
  lemma RunOnceActs(feed: seq<Entry>, history: seq<string>, keyword: string, pick: nat, emoji: nat,
                    inject: string -> Option<string>, w: World)
    requires emoji < 5
    requires |Candidates(feed, history)| > 0 && pick < Min(3, |Candidates(feed, history)|)
    ensures var d := RunOnce(feed, history, keyword, pick, emoji, inject, w);
      var r := AiWriter(w.key, w.api, inject, w.button);
      d.picked == Some(Candidates(feed, history)[pick])
      && (d.mail.Some? <==> r.finish.Returned? && r.finish.value.Some? && |r.finish.value.value| > 0)
      && (d.mail.Some? ==> d.sent == SendToBlogger(w.creds, w.delivered).ok)
      && (d.sent <==> d.mail.Some? && SendToBlogger(w.creds, w.delivered).ok)
  {
    var c := Candidates(feed, history);
    assert c[..Min(3, |c|)][pick] == c[pick];
  }

  /** A mail that was sent carries the subject line and the writer's text. */
  lemma RunOnceMail(feed: seq<Entry>, history: seq<string>, keyword: string, pick: nat, emoji: nat,
                   inject: string -> Option<string>, w: World)
    requires emoji < 5
    requires |Candidates(feed, history)| > 0 ==> pick < Min(3, |Candidates(feed, history)|)
    ensures var d := RunOnce(feed, history, keyword, pick, emoji, inject, w);
      d.mail.Some? ==>
        (d.picked.Some?
         && d.mail.value.subject == Subject(emoji, keyword, d.picked.value.title)
         && AiWriter(w.key, w.api, inject, w.button).finish == Returned(Some(d.mail.value.body)) && |d.mail.value.body| > 0)
  {
  }

  /**
   * As written, a run mails nothing unless the writer's last reply, once
   * its fences are stripped, holds none of the class characters; the
   * article is then that reply unchanged, followed by the button.
   */
  lemma MainMailsOnlyPlainReplies(feed: seq<Entry>, history: seq<string>, keyword: string, pick: nat, emoji: nat, w: World)
    requires emoji < 5
    requires |Candidates(feed, history)| > 0 ==> pick < Min(3, |Candidates(feed, history)|)
    ensures var d := Main(feed, history, keyword, pick, emoji, w);
      var r := AiWriter(w.key, w.api, InjectAsWritten, w.button);
      d.mail.Some? ==>
        (|r.trace| > 0 && r.trace[|r.trace| - 1].got.Called? && r.trace[|r.trace| - 1].got.answer.Reply?
         && var text := StripFences(r.trace[|r.trace| - 1].got.answer.text);
         (forall i :: 0 <= i < |text| ==> text[i] !in ClassChars)
         && d.mail.value.body == text + w.button)
  {
    AsWrittenNeedsPlainReply(w.key, w.api, w.button);
  }
}
