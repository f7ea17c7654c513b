/**
 * The handler for incoming text messages and the process state it updates:
 * the history files, the global response counter, and the messages sent back.
 * The chat-completion call and the transport are outside the model; each
 * incoming event carries what they answered.
 */
module Relay {
  import opened Options
  import opened History
  import opened Italic

  /** Sent in place of an empty or missing completion. */
  const Fallback: string := "Sorry, I couldn't generate a response."

  /** Sent whenever the handler's error path is taken. */
  const Apology: string := "Sorry, something went wrong while generating the response."

  /** The length reminder sent after every tenth response. */
  const Reminder: string :=
    "\n        Your next reply in a chat. Replies must be between 10 to 20 words.\n      "

  /** What the chat-completion call gave: an error, or the first choice's content, if any. */
  datatype Completion = Failed | Completed(content: Option<string>)

  /** A message sent back to the user, with the parse mode it was sent in. */
  datatype Outgoing = Html(text: string) | MarkdownV2(text: string) | Plain(text: string)

  /**
   * One incoming text message and what the outside world answered while it
   * was handled: the completion, and whether the HTML reply and the
   * reminder were accepted by the transport.
   */
  datatype TextEvent = TextEvent(
    user: UserId,
    text: string,
    completion: Completion,
    htmlDelivered: bool,
    reminderDelivered: bool)

  /** The process state the handler reads and writes. */
  datatype State = State(files: Files, responseCount: nat, outbox: seq<Outgoing>)

  /** `content || fallback`: an absent or empty completion is replaced by the fallback text. */
  function ReplyText(content: Option<string>): (r: string)
    ensures r != []
    ensures content.Some? && content.value != [] ==> r == content.value
    ensures content.None? || content.value == [] ==> r == Fallback
  {
    match content
    case Some(c) => if c != [] then c else Fallback
    case None => Fallback
  }

  /** How many length reminders `out` holds. */
  function Reminders(out: seq<Outgoing>): nat
  {
    if out == [] then 0
    else (if out[0] == MarkdownV2(Reminder) then 1 else 0) + Reminders(out[1..])
  }

  lemma {:induction false} RemindersAppend(a: seq<Outgoing>, b: seq<Outgoing>)
    ensures Reminders(a + b) == Reminders(a) + Reminders(b)
  {
    if a != [] {
      assert (a + b)[0] == a[0];
      assert (a + b)[1..] == a[1..] + b;
      RemindersAppend(a[1..], b);
    } else {
      assert a + b == b;
    }
  }

  /**
   * What a completed turn sends after the reply `reply` raised the counter
   * to `count`: the reply, then the reminder when `count` is a multiple of
   * ten; a send the transport rejects is followed by the apology instead.
   */
  function Sends(reply: string, count: nat, htmlDelivered: bool, reminderDelivered: bool)
    : (r: seq<Outgoing>)
    ensures |r| == (if htmlDelivered && count % 10 == 0 then 2 else 1)
    ensures r[0] == (if htmlDelivered then Html(reply) else Plain(Apology))
    ensures |r| == 2 ==> r[1] == (if reminderDelivered then MarkdownV2(Reminder) else Plain(Apology))
    ensures Reminders(r) == (if htmlDelivered && reminderDelivered && count % 10 == 0 then 1 else 0)
  {
    if !htmlDelivered then [Plain(Apology)]
    else if count % 10 != 0 then [Html(reply)]
    else if reminderDelivered then
      assert [Html(reply), MarkdownV2(Reminder)][1..] == [MarkdownV2(Reminder)];
      assert Reminders([MarkdownV2(Reminder)]) == 1 by { assert [MarkdownV2(Reminder)][1..] == []; }
      [Html(reply), MarkdownV2(Reminder)]
    else
      assert [Html(reply), Plain(Apology)][1..] == [Plain(Apology)];
      assert Reminders([Plain(Apology)]) == 0 by { assert [Plain(Apology)][1..] == []; }
      [Html(reply), Plain(Apology)]
  }

  /**
   * A completed turn whose formatted reply is `reply`: the counter goes up by
   * one, the loaded transcript plus the user's message and the reply is
   * saved, and the reply (and possibly the reminder) is sent.
   */
  function Answered(s: State, e: TextEvent, reply: string): (r: State)
    ensures r.responseCount == s.responseCount + 1
    ensures r.files == Save(s.files, e.user,
                            Load(s.files, e.user) + [Message(User, e.text), Message(Assistant, reply)])
    ensures Load(r.files, e.user) == Load(s.files, e.user) + [Message(User, e.text), Message(Assistant, reply)]
    ensures r.outbox == s.outbox + Sends(reply, r.responseCount, e.htmlDelivered, e.reminderDelivered)
    ensures forall u :: u != e.user ==> (u in r.files <==> u in s.files)
    ensures forall u :: u != e.user && u in s.files ==> r.files[u] == s.files[u]
    ensures Reminders(r.outbox) == Reminders(s.outbox) +
      (if e.htmlDelivered && e.reminderDelivered && r.responseCount % 10 == 0 then 1 else 0)
  {
    var count := s.responseCount + 1;
    var sent := Sends(reply, count, e.htmlDelivered, e.reminderDelivered);
    RemindersAppend(s.outbox, sent);
    State(Save(s.files, e.user, Load(s.files, e.user) + [Message(User, e.text), Message(Assistant, reply)]),
          count, s.outbox + sent)
  }

  /**
   * One turn of the text handler. A failed completion sends the apology and
   * changes nothing else; otherwise the turn is answered with the formatted
   * completion, or the fallback text when the completion is empty. The
   * reminder is sent exactly when the new count is a multiple of ten and
   * both sends went through.
   */
  function Next(s: State, e: TextEvent): (r: State)
    ensures e.completion.Failed? ==>
      r.files == s.files && r.responseCount == s.responseCount
      && r.outbox == s.outbox + [Plain(Apology)]
    ensures Reminders(r.outbox) == Reminders(s.outbox) +
      (if e.completion.Completed? && e.htmlDelivered && e.reminderDelivered
          && r.responseCount % 10 == 0 then 1 else 0)
  {
    match e.completion
    case Failed =>
      RemindersAppend(s.outbox, [Plain(Apology)]);
      s.(outbox := s.outbox + [Plain(Apology)])
    case Completed(content) =>
      Answered(s, e, FormatTextToItalic(ReplyText(content)))
  }

  /**
   * What a completed turn sends comes after everything sent before it, and
   * begins with the reply, or with the apology when the reply was rejected.
   */
  lemma AnsweredFirstSend(s: State, e: TextEvent, reply: string)
    ensures |Answered(s, e, reply).outbox| > |s.outbox|
    ensures Answered(s, e, reply).outbox[..|s.outbox|] == s.outbox
    ensures Answered(s, e, reply).outbox[|s.outbox|]
      == (if e.htmlDelivered then Html(reply) else Plain(Apology))
  {
    var sent := Sends(reply, s.responseCount + 1, e.htmlDelivered, e.reminderDelivered);
    assert (s.outbox + sent)[..|s.outbox|] == s.outbox;
    assert (s.outbox + sent)[|s.outbox|] == sent[0];
  }

  /** The turns of `es`, handled one after the other. */
  function Run(s: State, es: seq<TextEvent>): State
    decreases |es|
  {
    if es == [] then s else Run(Next(s, es[0]), es[1..])
  }

  /** How many of the events got a completion. */
  function Completions(es: seq<TextEvent>): nat
  {
    if es == [] then 0 else (if es[0].completion.Completed? then 1 else 0) + Completions(es[1..])
  }

  /** Every event got a completion and every send went through. */
  predicate AllDelivered(es: seq<TextEvent>)
  {
    forall k :: 0 <= k < |es| ==>
      es[k].completion.Completed? && es[k].htmlDelivered && es[k].reminderDelivered
  }

  /** The counter goes up once per completed turn and never otherwise. */
  lemma {:induction false} RunCountsCompletions(s: State, es: seq<TextEvent>)
    ensures Run(s, es).responseCount == s.responseCount + Completions(es)
    decreases |es|
  {
    if es != [] {
      RunCountsCompletions(Next(s, es[0]), es[1..]);
    }
  }

  /**
   * Reminders are sent at most once per multiple of ten the counter reaches,
   * and exactly once per multiple when every turn completes and every send
   * goes through.
   */
  lemma {:induction false} RunReminders(s: State, es: seq<TextEvent>)
    ensures Reminders(Run(s, es).outbox) - Reminders(s.outbox)
      <= Run(s, es).responseCount / 10 - s.responseCount / 10
    ensures Reminders(Run(s, es).outbox) >= Reminders(s.outbox)
    ensures AllDelivered(es) ==>
      Reminders(Run(s, es).outbox) - Reminders(s.outbox)
        == Run(s, es).responseCount / 10 - s.responseCount / 10
    decreases |es|
  {
    if es != [] {
      var t := Next(s, es[0]);
      RunReminders(t, es[1..]);
      RunCountsCompletions(t, es[1..]);
      assert AllDelivered(es) ==> AllDelivered(es[1..]) by {
        if AllDelivered(es) {
          forall k | 0 <= k < |es[1..]|
            ensures es[1..][k].completion.Completed? && es[1..][k].htmlDelivered
              && es[1..][k].reminderDelivered
          {
            assert es[1..][k] == es[k + 1];
          }
        }
      }
      assert AllDelivered(es) ==>
        es[0].completion.Completed? && es[0].htmlDelivered && es[0].reminderDelivered;
    }
  }

  /** From a fresh process, the first nine turns never send the reminder. */
  lemma NoReminderBeforeTenthResponse(s: State, es: seq<TextEvent>)
    requires s.responseCount == 0 && |es| < 10
    ensures Reminders(Run(s, es).outbox) == Reminders(s.outbox)
  {
    RunReminders(s, es);
    RunCountsCompletions(s, es);
    CompletionsAtMostEvents(es);
  }

  lemma {:induction false} CompletionsAtMostEvents(es: seq<TextEvent>)
    ensures Completions(es) <= |es|
  {
    if es != [] {
      CompletionsAtMostEvents(es[1..]);
    }
  }

  /** Turns of other users never touch a user's record. */
  lemma {:induction false} RunLeavesOtherUsers(s: State, es: seq<TextEvent>, user: UserId)
    requires forall k :: 0 <= k < |es| ==> es[k].user != user
    ensures user in Run(s, es).files <==> user in s.files
    ensures user in s.files ==> Run(s, es).files[user] == s.files[user]
    decreases |es|
  {
    if es != [] {
      RunLeavesOtherUsers(Next(s, es[0]), es[1..], user);
    }
  }

  /**
   * A user's completed turns each add exactly two messages to what that user
   * loads: their own message and the formatted reply.
   */
  lemma {:induction false} RunGrowsTranscript(s: State, es: seq<TextEvent>, user: UserId)
    requires forall k :: 0 <= k < |es| ==> es[k].user == user && es[k].completion.Completed?
    ensures |Load(Run(s, es).files, user)| == |Load(s.files, user)| + 2 * |es|
    ensures |es| > 0 ==> Load(Run(s, es).files, user)[..|Load(s.files, user)|] == Load(s.files, user)
    decreases |es|
  {
    if es != [] {
      var t := Next(s, es[0]);
      RunGrowsTranscript(t, es[1..], user);
      var before := Load(s.files, user);
      var after := Load(t.files, user);
      assert after[..|before|] == before;
      if |es| > 1 {
        assert Load(Run(s, es).files, user)[..|before|]
            == Load(Run(t, es[1..]).files, user)[..|after|][..|before|];
      }
    }
  }

  /** A completed turn saves a transcript that still starts from the seed. */
  lemma AnsweredKeepsSeeded(s: State, e: TextEvent, reply: string)
    requires Seeded(s.files)
    ensures Seeded(Answered(s, e, reply).files)
  {
    var t := Load(s.files, e.user) + [Message(User, e.text), Message(Assistant, reply)];
    LoadSeeded(s.files, e.user);
    assert t[0] == Load(s.files, e.user)[0];
    SaveSeeded(s.files, e.user, t);
  }

  /**
   * Every turn keeps each stored transcript starting from the persona seed,
   * so whatever any user loads next starts from it too.
   */
  lemma NextKeepsSeeded(s: State, e: TextEvent)
    requires Seeded(s.files)
    ensures Seeded(Next(s, e).files)
    ensures forall u :: |Load(Next(s, e).files, u)| > 0 && Load(Next(s, e).files, u)[0] == Seed
  {
    if e.completion.Completed? {
      AnsweredKeepsSeeded(s, e, FormatTextToItalic(ReplyText(e.completion.content)));
    }
    forall u
      ensures |Load(Next(s, e).files, u)| > 0 && Load(Next(s, e).files, u)[0] == Seed
    {
      LoadSeeded(Next(s, e).files, u);
    }
  }

  /** Over any run of turns, every transcript keeps starting from the persona seed. */
  lemma {:induction false} RunKeepsSeeded(s: State, es: seq<TextEvent>)
    requires Seeded(s.files)
    ensures Seeded(Run(s, es).files)
    ensures forall u :: |Load(Run(s, es).files, u)| > 0 && Load(Run(s, es).files, u)[0] == Seed
    decreases |es|
  {
    if es != [] {
      NextKeepsSeeded(s, es[0]);
      RunKeepsSeeded(Next(s, es[0]), es[1..]);
    } else {
      forall u
        ensures |Load(s.files, u)| > 0 && Load(s.files, u)[0] == Seed
      {
        LoadSeeded(s.files, u);
      }
    }
  }

  /**
   * The process: the history files, the global response counter and the
   * messages sent so far. Each incoming text message is one call of `OnText`.
   */
  class Bot {
    var files: Files
    var responseCount: nat
    var outbox: seq<Outgoing>

    function Snapshot(): State
      reads this
    {
      State(files, responseCount, outbox)
    }

    /** Start-up: the history directory as found on disk, the counter at zero. */
    constructor (disk: Files)
      ensures Snapshot() == State(disk, 0, [])
    {
      files := disk;
      responseCount := 0;
      outbox := [];
    }

    /** The `'text'` handler: one turn, as `Next` describes it. */
    method OnText(e: TextEvent)
      modifies this
      ensures Snapshot() == Next(old(Snapshot()), e)
    {
      match e.completion
      case Failed =>
        outbox := outbox + [Plain(Apology)];
      case Completed(content) =>
        var reply := ReplyText(content);
        reply := FormatTextToItalic(reply);
        Answer(e, reply);
    }

    /** The rest of a completed turn, once the reply is formatted. */
    method Answer(e: TextEvent, reply: string)
      modifies this
      ensures Snapshot() == Answered(old(Snapshot()), e, reply)
    {
      var history := Load(files, e.user);
      history := history + [Message(User, e.text)];
      responseCount := responseCount + 1;
      history := history + [Message(Assistant, reply)];
      assert history == Load(old(files), e.user) + [Message(User, e.text), Message(Assistant, reply)];
      files := Save(files, e.user, history);
      var sent: seq<Outgoing>;
      if !e.htmlDelivered {
        sent := [Plain(Apology)];
      } else {
        sent := [Html(reply)];
        if responseCount % 10 == 0 {
          if e.reminderDelivered {
            sent := sent + [MarkdownV2(Reminder)];
          } else {
            sent := sent + [Plain(Apology)];
          }
        }
      }
      assert sent == Sends(reply, responseCount, e.htmlDelivered, e.reminderDelivered);
      outbox := outbox + sent;
    }
  }
}
