/**
 * The conversation context the chat endpoint builds from the client's
 * history: only the last ten messages are used, each rendered as a line
 * labelled "User" when its role is "user" and "Assistant" otherwise.
 */
module ChatHistory {
  import opened Wrappers

  /** One history message after JSON parsing: its `role` and `content`
      members, `None` where the member is missing. */
  datatype Message = Message(role: Option<string>, content: Option<string>)

  /** How many of the most recent messages the context keeps. */
  const WindowSize: nat := 10

  /** `history[-10:]`: the last ten messages, or all of them when there are
      fewer, in their original order. */
  function Window(history: seq<Message>): (w: seq<Message>)
    ensures |w| == if |history| < WindowSize then |history| else WindowSize
    ensures w == history[|history| - |w|..]
  {
    if |history| <= WindowSize then history else history[|history| - WindowSize..]
  }

  /** The speaker label: "User" exactly when the role is "user", otherwise
      "Assistant" (a missing role included). */
  function Label(role: Option<string>): (r: string)
    ensures r == "User" <==> role == Some("user")
    ensures r == "User" || r == "Assistant"
  {
    if role == Some("user") then "User" else "Assistant"
  }

  /** `msg.get('content', '')`. */
  function ContentOf(msg: Message): string {
    match msg.content
    case Some(c) => c
    case None => ""
  }

  /** The line one message contributes: `<label>: <content>` and a blank line. */
  function Line(msg: Message): string {
    Label(msg.role) + ": " + ContentOf(msg) + "\n\n"
  }

  /** The line of each message, in order. */
  function Lines(msgs: seq<Message>): (r: seq<string>)
    ensures |r| == |msgs|
    ensures forall k :: 0 <= k < |msgs| ==> r[k] == Line(msgs[k])
  {
    seq(|msgs|, k requires 0 <= k < |msgs| => Line(msgs[k]))
  }

  /** The pieces one after another, as repeated `+=` builds them. */
  function Join(parts: seq<string>): string
    decreases |parts|
  {
    if parts == [] then "" else Join(parts[..|parts| - 1]) + parts[|parts| - 1]
  }

  /** The context text for `msgs`: their lines, one after another. */
  function Transcript(msgs: seq<Message>): string {
    Join(Lines(msgs))
  }

  /** The context accumulated by the chat endpoint's loop over `history[-10:]`. */
  method ConversationContext(history: seq<Message>) returns (context: string)
    ensures context == Transcript(Window(history))
  {
    context := "";
    if history != [] {
      var window := Window(history);
      ghost var lines := Lines(window);
      var i := 0;
      while i < |window|
        invariant 0 <= i <= |window|
        invariant context == Join(lines[..i])
      {
        var msg := window[i];
        var role := if msg.role == Some("user") then "User" else "Assistant";
        var content := match msg.content case Some(c) => c case None => "";
        var line := role + ": " + content + "\n\n";
        assert line == lines[i];
        assert lines[..i + 1][..i] == lines[..i];
        context := context + line;
        i := i + 1;
      }
      assert lines[..|window|] == lines;
    }
  }

  /** Joining two runs of pieces is joining each and concatenating. */
  lemma {:induction false} JoinAppend(a: seq<string>, b: seq<string>)
    ensures Join(a + b) == Join(a) + Join(b)
    decreases |b|
  {
    if b == [] {
      assert a + b == a;
    } else {
      var init := b[..|b| - 1];
      assert (a + b)[..|a + b| - 1] == a + init;
      assert (a + b)[|a + b| - 1] == b[|b| - 1];
      JoinAppend(a, init);
      assert Join(a) + Join(init) + b[|b| - 1] == Join(a) + (Join(init) + b[|b| - 1]);
    }
  }

  /** The context of two runs of messages is the two contexts joined. */
  lemma TranscriptAppend(a: seq<Message>, b: seq<Message>)
    ensures Transcript(a + b) == Transcript(a) + Transcript(b)
  {
    assert Lines(a + b) == Lines(a) + Lines(b);
    JoinAppend(Lines(a), Lines(b));
  }

  /** Piece `k` lands right after the pieces before it and right before
      those after it. */
  lemma {:induction false} JoinSplitsAt(parts: seq<string>, k: nat)
    requires k < |parts|
    ensures Join(parts) == Join(parts[..k]) + parts[k] + Join(parts[k + 1..])
    decreases |parts|
  {
    var init, last := parts[..|parts| - 1], parts[|parts| - 1];
    if k == |parts| - 1 {
      assert parts[..k] == init;
      assert parts[k + 1..] == [];
    } else {
      JoinSplitsAt(init, k);
      assert init[..k] == parts[..k];
      var after := parts[k + 1..];
      assert after[..|after| - 1] == init[k + 1..];
      assert after[|after| - 1] == last;
      assert Join(after) == Join(init[k + 1..]) + last;
      assert Join(parts[..k]) + parts[k] + Join(init[k + 1..]) + last
          == Join(parts[..k]) + parts[k] + (Join(init[k + 1..]) + last);
    }
  }

  lemma LinesSlices(msgs: seq<Message>, k: nat)
    requires k < |msgs|
    ensures Lines(msgs[..k]) == Lines(msgs)[..k]
    ensures Lines(msgs[k + 1..]) == Lines(msgs)[k + 1..]
  {
  }

  /** Message `k` contributes its line right after the lines of the messages
      before it and right before those of the messages after it. */
  lemma TranscriptSplitsAt(msgs: seq<Message>, k: nat)
    requires k < |msgs|
    ensures Transcript(msgs) == Transcript(msgs[..k]) + Line(msgs[k]) + Transcript(msgs[k + 1..])
  {
    LinesSlices(msgs, k);
    JoinSplitsAt(Lines(msgs), k);
  }

  /** Messages older than the last ten never reach the context. */
  lemma OlderMessagesIgnored(older: seq<Message>, recent: seq<Message>)
    requires |recent| >= WindowSize
    ensures Transcript(Window(older + recent)) == Transcript(Window(recent))
  {
    assert Window(older + recent) == Window(recent);
  }
}
