/**
 * The chat component: its message log, the text box and the typing
 * indicator, the seeding of the log on mount, and `send`, which ignores
 * blank input, empties the log on `clear`, and otherwise posts the trimmed
 * text and, after a pause, the bot's reply.
 *
 * `send` is asynchronous: it posts the user's message, waits, and posts the
 * reply. It is modelled as two steps, `Submit` and `Deliver`, so that what
 * happens between them can be stated; `Send` is the two run back to back.
 * Message ids and timestamps come from `Math.random` and `Date.now` and are
 * parameters.
 */
module Controller {
  import opened JsText
  import opened Responder

  datatype Role = User | Bot

  datatype Message = Message(id: string, role: Role, text: string, ts: int)

  /** The component's state: the log, the text box and the typing indicator. */
  datatype Chat = Chat(messages: seq<Message>, input: string, typing: bool)

  const Initial: Chat := Chat([], "", false)

  const SeedText: string :=
    "Hey! I'm " + BotName + ", a playful rule\U{2011}based chatbot. Type 'help' to see examples."

  /** `/^clear$/i` on the trimmed text. */
  predicate IsClearCommand(t: string) {
    Lower(t) == "clear"
  }

  // ---------------------------------------------------------------------------
  // The steps, on values

  /** The mount effect: a log that is still empty gets the greeting. */
  function Seeded(c: Chat, id: string, ts: int): Chat {
    if c.messages == [] then c.(messages := [Message(id, Bot, SeedText, ts)]) else c
  }

  /** What `send` hands to the responder after its pause: nothing for blank
      input or `clear`, otherwise the trimmed text. */
  function Pending(text: string): Option<string> {
    var trimmed := Trim(text);
    if trimmed == [] || IsClearCommand(trimmed) then None else Some(trimmed)
  }

  /** The state right after `send` starts, before its pause. */
  function Submitted(c: Chat, text: string, id: string, ts: int): Chat {
    var trimmed := Trim(text);
    if trimmed == [] then c
    else if IsClearCommand(trimmed) then c.(messages := [])
    else Chat(c.messages + [Message(id, User, trimmed, ts)], "", true)
  }

  /** The state once the reply to `trimmed` is posted after the pause. */
  function Delivered(c: Chat, trimmed: string, id: string, ts: int, env: Env): Chat {
    c.(messages := c.messages + [Message(id, Bot, Respond(trimmed, env), ts)], typing := false)
  }

  /** A whole `send`, with nothing happening during the pause. */
  function Sent(c: Chat, text: string, userId: string, userTs: int, botId: string, botTs: int, env: Env): Chat {
    var d := Submitted(c, text, userId, userTs);
    match Pending(text)
    case None => d
    case Some(trimmed) => Delivered(d, trimmed, botId, botTs, env)
  }

  // ---------------------------------------------------------------------------
  // The component

  class RuleBot {
    var messages: seq<Message>
    var input: string
    var typing: bool

    function State(): Chat
      reads this
    {
      Chat(messages, input, typing)
    }

    constructor()
      ensures State() == Initial
    {
      messages := [];
      input := "";
      typing := false;
    }

    /** The effect that runs once when the component mounts. */
    method Mount(id: string, ts: int)
      modifies this
      ensures State() == Seeded(old(State()), id, ts)
    {
      if |messages| == 0 {
        messages := [Message(id, Bot, SeedText, ts)];
      }
    }

    /** The text box's `onChange`. */
    method Edit(value: string)
      modifies this
      ensures State() == old(State()).(input := value)
    {
      input := value;
    }

    /** `send` up to its pause; returns the text the reply will be computed
        for, if any. */
    method Submit(text: string, id: string, ts: int) returns (pending: Option<string>)
      modifies this
      ensures pending == Pending(text)
      ensures State() == Submitted(old(State()), text, id, ts)
    {
      var trimmed := Trim(text);
      if trimmed == [] {
        return None;
      }
      if IsClearCommand(trimmed) {
        messages := [];
        return None;
      }
      messages := messages + [Message(id, User, trimmed, ts)];
      input := "";
      typing := true;
      pending := Some(trimmed);
    }

    /** `send` after its pause: posts the reply to whatever the log holds then. */
    method Deliver(trimmed: string, id: string, ts: int, env: Env)
      modifies this
      ensures State() == Delivered(old(State()), trimmed, id, ts, env)
    {
      var reply := Respond(trimmed, env);
      messages := messages + [Message(id, Bot, reply, ts)];
      typing := false;
    }

    /** A whole `send`. */
    method Send(text: string, userId: string, userTs: int, botId: string, botTs: int, env: Env)
      modifies this
      ensures State() == Sent(old(State()), text, userId, userTs, botId, botTs, env)
    {
      var pending := Submit(text, userId, userTs);
      if pending.Some? {
        Deliver(pending.value, botId, botTs, env);
      }
    }

    /** The form's `onSubmit`: sends what the text box holds. */
    method SubmitForm(userId: string, userTs: int, botId: string, botTs: int, env: Env)
      modifies this
      ensures State() == Sent(old(State()), old(input), userId, userTs, botId, botTs, env)
    {
      Send(input, userId, userTs, botId, botTs, env);
    }
  }

  // ---------------------------------------------------------------------------
  // Properties

  /** `clear` is recognised whatever its letter case, and nothing else is. */
  lemma ClearCommandSpec(t: string)
    ensures IsClearCommand(t) <==> |t| == 5 && forall i | 0 <= i < 5 :: ToLowerChar(t[i]) == "clear"[i]
  {
    LowerSpec(t);
    if |t| == 5 && forall i | 0 <= i < 5 :: ToLowerChar(t[i]) == "clear"[i] {
      assert Lower(t) == "clear";
    }
  }

  /** Mounting puts exactly the greeting into an empty log, changing nothing
      else, and never touches a log that has messages. */
  lemma SeededSpec(c: Chat, id: string, ts: int, id2: string, ts2: int)
    ensures c.messages == [] ==> Seeded(c, id, ts) == Chat([Message(id, Bot, SeedText, ts)], c.input, c.typing)
    ensures c.messages != [] ==> Seeded(c, id, ts) == c
    ensures Seeded(Seeded(c, id, ts), id2, ts2) == Seeded(c, id, ts)
  {
  }

  /** Blank input changes nothing and asks nothing of the responder. */
  lemma BlankIgnored(c: Chat, text: string, id: string, ts: int)
    requires AllSpace(text)
    ensures Submitted(c, text, id, ts) == c
    ensures Pending(text).None?
  {
    TrimSpec(text);
  }

  /** Only blank input and `clear` skip the responder. */
  lemma PendingSpec(text: string)
    ensures Pending(text).None? <==> AllSpace(text) || IsClearCommand(Trim(text))
  {
    TrimSpec(text);
  }

  /** `clear`, padded with any white space, empties the log and leaves the
      text box and the typing indicator as they were; clearing twice is
      clearing once. */
  lemma ClearEmpties(c: Chat, text: string, id: string, ts: int, id2: string, ts2: int)
    requires IsClearCommand(Trim(text))
    ensures Submitted(c, text, id, ts) == c.(messages := [])
    ensures Submitted(Submitted(c, text, id, ts), text, id2, ts2) == Submitted(c, text, id, ts)
    ensures Pending(text).None?
  {
  }

  /** Input that reaches the responder is posted, trimmed and never empty,
      after the earlier messages; the text box is emptied and the typing
      indicator turned on for the pause. */
  lemma PostedTextTrimmed(c: Chat, text: string, id: string, ts: int)
    requires Pending(text).Some?
    ensures var t := Pending(text).value;
      && t != []
      && !IsSpace(t[0]) && !IsSpace(t[|t| - 1])
      && Submitted(c, text, id, ts).messages == c.messages + [Message(id, User, t, ts)]
      && Submitted(c, text, id, ts).input == ""
      && Submitted(c, text, id, ts).typing
  {
    TrimSpec(text);
  }

  /** Trimming before the responder, which trims again, changes no reply. */
  lemma RespondTrimmed(text: string, env: Env)
    ensures Respond(Trim(text), env) == Respond(text, env)
  {
    NormalizeSpec(text);
    TrimSpec(text);
    TrimTrimmed(Trim(text));
    assert Normalize(Trim(text)) == Normalize(text);
  }

  /** A message that reaches the responder adds exactly two messages, the
      user's trimmed text and the bot's reply to it, clears the text box and
      leaves the typing indicator off. */
  lemma SendPostsPair(c: Chat, text: string, userId: string, userTs: int, botId: string, botTs: int, env: Env)
    requires Pending(text).Some?
    ensures var d := Sent(c, text, userId, userTs, botId, botTs, env);
      && d.messages == c.messages + [Message(userId, User, Trim(text), userTs), Message(botId, Bot, Respond(text, env), botTs)]
      && d.input == ""
      && !d.typing
  {
    RespondTrimmed(text, env);
  }

  /** Every user message is followed at once by a bot message. */
  predicate Paired(m: seq<Message>) {
    forall i | 0 <= i < |m| && m[i].role == User :: i + 1 < |m| && m[i + 1].role == Bot
  }

  /** Every user message holds non-empty text with no white space at either end. */
  predicate CleanUserText(m: seq<Message>) {
    forall i | 0 <= i < |m| && m[i].role == User :: m[i].text != [] && !IsSpace(m[i].text[0]) && !IsSpace(m[i].text[|m[i].text| - 1])
  }

  /** A well-kept log: questions answered, user text trimmed. */
  predicate GoodLog(m: seq<Message>) {
    Paired(m) && CleanUserText(m)
  }

  /** When nothing interleaves with the pause, mounting and sending keep the
      log well kept. */
  lemma SendKeepsLog(c: Chat, text: string, userId: string, userTs: int, botId: string, botTs: int, env: Env)
    requires GoodLog(c.messages)
    ensures GoodLog(Sent(c, text, userId, userTs, botId, botTs, env).messages)
  {
    var d := Sent(c, text, userId, userTs, botId, botTs, env);
    PendingSpec(text);
    if Pending(text).Some? {
      SendPostsPair(c, text, userId, userTs, botId, botTs, env);
      PostedTextTrimmed(c, text, userId, userTs);
      var n := |c.messages|;
      assert d.messages[n].role == User && d.messages[n + 1].role == Bot;
      forall i | 0 <= i < |d.messages| && d.messages[i].role == User
        ensures i + 1 < |d.messages| && d.messages[i + 1].role == Bot
      {
        if i < n {
          assert d.messages[i] == c.messages[i];
        }
      }
    } else if !AllSpace(text) {
      assert d.messages == [];
    } else {
      BlankIgnored(c, text, userId, userTs);
    }
  }

  /** The state after sending each of `texts` in turn, each with its ids and
      timestamps, every reply posted before the next message is sent. */
  function Session(c: Chat, texts: seq<(string, string, int, string, int)>, env: Env): Chat
    decreases |texts|
  {
    if texts == [] then c
    else
      var (t, uid, uts, bid, bts) := texts[0];
      Session(Sent(c, t, uid, uts, bid, bts, env), texts[1..], env)
  }

  /** Sending messages one after another keeps a well-kept log well kept. */
  lemma {:induction false} SessionKeepsLog(c: Chat, texts: seq<(string, string, int, string, int)>, env: Env)
    requires GoodLog(c.messages)
    ensures GoodLog(Session(c, texts, env).messages)
    decreases |texts|
  {
    if texts != [] {
      var (t, uid, uts, bid, bts) := texts[0];
      SendKeepsLog(c, t, uid, uts, bid, bts, env);
      SessionKeepsLog(Sent(c, t, uid, uts, bid, bts, env), texts[1..], env);
    }
  }

  /** No text of the session is a `clear` command. */
  predicate NoClear(texts: seq<(string, string, int, string, int)>) {
    forall k | 0 <= k < |texts| :: !IsClearCommand(Trim(texts[k].0))
  }

  /** A session with no `clear` keeps the earlier messages in front. */
  lemma {:induction false} SessionExtends(c: Chat, texts: seq<(string, string, int, string, int)>, env: Env)
    requires NoClear(texts)
    ensures c.messages <= Session(c, texts, env).messages
    decreases |texts|
  {
    if texts != [] {
      var (t, uid, uts, bid, bts) := texts[0];
      var d := Sent(c, t, uid, uts, bid, bts, env);
      assert c.messages <= d.messages;
      assert NoClear(texts[1..]) by {
        forall k | 0 <= k < |texts[1..]| ensures !IsClearCommand(Trim(texts[1..][k].0)) {
          assert texts[1..][k] == texts[k + 1];
        }
      }
      SessionExtends(d, texts[1..], env);
    }
  }

  /** Sending one more text is one more `Sent` at the end of the session. */
  lemma {:induction false} SessionSnoc(c: Chat, texts: seq<(string, string, int, string, int)>, last: (string, string, int, string, int), env: Env)
    ensures Session(c, texts + [last], env) == Sent(Session(c, texts, env), last.0, last.1, last.2, last.3, last.4, env)
    decreases |texts|
  {
    if texts != [] {
      var (t, uid, uts, bid, bts) := texts[0];
      assert (texts + [last])[1..] == texts[1..] + [last];
      SessionSnoc(Sent(c, t, uid, uts, bid, bts, env), texts[1..], last, env);
    }
  }

  /** A session that ends with `clear` leaves the log empty. */
  lemma SessionEndsCleared(c: Chat, texts: seq<(string, string, int, string, int)>, env: Env)
    requires texts != [] && IsClearCommand(Trim(texts[|texts| - 1].0))
    ensures Session(c, texts, env).messages == []
  {
    var n := |texts| - 1;
    assert texts == texts[..n] + [texts[n]];
    SessionSnoc(c, texts[..n], texts[n], env);
  }

  /** From a freshly mounted component, any run of sends leaves a log that is
      well kept and, unless a `clear` was sent, still opens with the greeting. */
  lemma MountedSession(id: string, ts: int, texts: seq<(string, string, int, string, int)>, env: Env)
    ensures Seeded(Initial, id, ts).messages == [Message(id, Bot, SeedText, ts)]
    ensures GoodLog(Session(Seeded(Initial, id, ts), texts, env).messages)
    ensures NoClear(texts) ==> [Message(id, Bot, SeedText, ts)] <= Session(Seeded(Initial, id, ts), texts, env).messages
  {
    SessionKeepsLog(Seeded(Initial, id, ts), texts, env);
    if NoClear(texts) {
      SessionExtends(Seeded(Initial, id, ts), texts, env);
    }
  }

  /** A `clear` sent during another message's pause leaves that message's
      reply alone in the log, with no question before it. */
  lemma ClearDuringPause(c: Chat, text: string, id1: string, ts1: int, id2: string, ts2: int, id3: string, ts3: int, env: Env)
    requires Pending(text).Some?
    ensures var d := Submitted(Submitted(c, text, id1, ts1), "clear", id2, ts2);
      Delivered(d, Pending(text).value, id3, ts3, env).messages == [Message(id3, Bot, Respond(text, env), ts3)]
  {
    RespondTrimmed(text, env);
    assert Trim("clear") == "clear" by {
      TrimTrimmed("clear");
    }
    assert IsClearCommand("clear");
  }

  /** Two messages sent within one pause: the first reply turns the typing
      indicator off while the second is still pending. */
  lemma TypingOffEarly(c: Chat, text1: string, text2: string, id1: string, ts1: int, id2: string, ts2: int, id3: string, ts3: int, env: Env)
    requires Pending(text1).Some? && Pending(text2).Some?
    ensures var d := Submitted(Submitted(c, text1, id1, ts1), text2, id2, ts2);
      d.typing && !Delivered(d, Pending(text1).value, id3, ts3, env).typing
  {
    PendingSpec(text1);
    PendingSpec(text2);
  }
}
