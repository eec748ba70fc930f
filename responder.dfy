/** Long replies and `/continue` (internal/responder/responder.go).

    The chat service refuses messages over 2000 bytes.  A longer reply is cut
    near the limit, preferably at the last newline and otherwise at the last
    white-space byte of a 101-byte window, and sent with a prompt to
    continue; the rest, trimmed, waits in a per-server buffer until someone
    asks for it.  Messages are byte strings, as Go strings are. */
module Responder {
  import opened Wrappers

  newtype Byte = b: int | 0 <= b < 256

  const MaxMessageLen: int := 2000
  const MaxSplitCutoff: int := 100
  const Newline: Byte := 10

  // The prompt: newline, "...", newline, "*/continue to show more*".
  const ContinuePrompt: seq<Byte> :=
    [10, 46, 46, 46, 10, 42, 47, 99, 111, 110, 116, 105, 110, 117, 101, 32,
     116, 111, 32, 115, 104, 111, 119, 32, 109, 111, 114, 101, 42]
  const MaxSplitIndex: int := MaxMessageLen - |ContinuePrompt|
  const MinSplitIndex: int := MaxSplitIndex - MaxSplitCutoff

  lemma SplitWindowBounds()
    ensures |ContinuePrompt| == 29 && MaxSplitIndex == 1971 && MinSplitIndex == 1871
  {
  }

  /** `unicode.IsSpace` on a one-byte rune: tab, newline, vertical tab, form
      feed, carriage return and space. */
  predicate IsSpace(b: Byte)
  {
    b == 9 || b == 10 || b == 11 || b == 12 || b == 13 || b == 32
  }

  /** `strings.LastIndex(s, "\n")`: the last newline, or -1. */
  function LastNewline(s: seq<Byte>): (r: int)
    ensures -1 <= r < |s|
    ensures r >= 0 ==> s[r] == Newline
    ensures forall i :: r < i < |s| ==> s[i] != Newline
  {
    if s == [] then -1
    else if s[|s| - 1] == Newline then |s| - 1
    else LastNewline(s[..|s| - 1])
  }

  /** `strings.LastIndexFunc(s, unicode.IsSpace)`: the last white space, or -1. */
  function LastSpace(s: seq<Byte>): (r: int)
    ensures -1 <= r < |s|
    ensures r >= 0 ==> IsSpace(s[r])
    ensures forall i :: r < i < |s| ==> !IsSpace(s[i])
  {
    if s == [] then -1
    else if IsSpace(s[|s| - 1]) then |s| - 1
    else LastSpace(s[..|s| - 1])
  }

  /** Where an over-long message is cut: the last newline in bytes
      1871..1971, else the last white space there, else 1971. */
  function SplitIndex(message: seq<Byte>): (r: int)
    requires |message| > MaxMessageLen
    ensures MinSplitIndex <= r <= MaxSplitIndex
    ensures (exists i :: MinSplitIndex <= i <= MaxSplitIndex && message[i] == Newline) ==>
      message[r] == Newline && forall i :: r < i <= MaxSplitIndex ==> message[i] != Newline
    ensures (forall i :: MinSplitIndex <= i <= MaxSplitIndex ==> message[i] != Newline) &&
            (exists i :: MinSplitIndex <= i <= MaxSplitIndex && IsSpace(message[i])) ==>
      IsSpace(message[r]) && forall i :: r < i <= MaxSplitIndex ==> !IsSpace(message[i])
    ensures (forall i :: MinSplitIndex <= i <= MaxSplitIndex ==> !IsSpace(message[i])) ==> r == MaxSplitIndex
  {
    var window := message[MinSplitIndex..MaxSplitIndex + 1];
    assert forall i :: MinSplitIndex <= i <= MaxSplitIndex ==> message[i] == window[i - MinSplitIndex];
    var newline := LastNewline(window);
    if newline != -1 then MinSplitIndex + newline
    else
      var space := LastSpace(window);
      if space != -1 then MinSplitIndex + space else MaxSplitIndex
  }

  /** Every byte is white space. */
  predicate AllSpace(s: seq<Byte>)
  {
    forall k :: 0 <= k < |s| ==> IsSpace(s[k])
  }

  /** How many white-space bytes the text starts with. */
  function LeadingSpace(s: seq<Byte>): (n: nat)
    ensures n <= |s| && AllSpace(s[..n])
    ensures n < |s| ==> !IsSpace(s[n])
  {
    if s == [] || !IsSpace(s[0]) then 0
    else
      var n := LeadingSpace(s[1..]);
      assert s[..n + 1] == [s[0]] + s[1..][..n];
      1 + n
  }

  /** Where the white space that the text ends with begins. */
  function TrailingSpace(s: seq<Byte>): (n: nat)
    ensures n <= |s| && AllSpace(s[n..])
    ensures 0 < n ==> !IsSpace(s[n - 1])
  {
    if s == [] || !IsSpace(s[|s| - 1]) then |s|
    else
      var n := TrailingSpace(s[..|s| - 1]);
      assert s[n..] == s[..|s| - 1][n..] + [s[|s| - 1]];
      n
  }

  /** `strings.TrimLeftFunc(s, unicode.IsSpace)`. */
  function TrimLeft(s: seq<Byte>): seq<Byte>
  {
    s[LeadingSpace(s)..]
  }

  /** `strings.TrimRightFunc(s, unicode.IsSpace)`. */
  function TrimRight(s: seq<Byte>): seq<Byte>
  {
    s[..TrailingSpace(s)]
  }

  /** `strings.TrimSpace`: drops the white space at both ends. */
  function TrimSpace(s: seq<Byte>): (r: seq<Byte>)
  {
    TrimRight(TrimLeft(s))
  }

  /** What is kept is a stretch of the input with only white space cut off
      around it, and it neither starts nor ends with white space. */
  lemma TrimSpaceKeepsMiddle(s: seq<Byte>)
    ensures exists i, j :: 0 <= i <= j <= |s| && TrimSpace(s) == s[i..j] && AllSpace(s[..i]) && AllSpace(s[j..])
    ensures TrimSpace(s) != [] ==> !IsSpace(TrimSpace(s)[0]) && !IsSpace(TrimSpace(s)[|TrimSpace(s)| - 1])
  {
    var i := LeadingSpace(s);
    var left := s[i..];
    var j := i + TrailingSpace(left);
    assert TrimSpace(s) == s[i..j];
    assert s[j..] == left[j - i..];
  }

  /** The first message sent for a reply: the reply itself when it fits,
      otherwise its head up to the cut followed by the prompt. */
  function Shown(message: seq<Byte>): (r: seq<Byte>)
    ensures |r| <= MaxMessageLen || r == message
    ensures |message| <= MaxMessageLen ==> r == message
  {
    if |message| <= MaxMessageLen then message
    else message[..SplitIndex(message)] + ContinuePrompt
  }

  /** The part of a reply that waits for `/continue`. */
  function Remainder(message: seq<Byte>): seq<Byte>
    requires |message| > MaxMessageLen
  {
    TrimSpace(message[SplitIndex(message)..])
  }

  /** Cutting a text anywhere and trimming the second part loses only white
      space: what is kept is a stretch of the second part with nothing but
      white space on either side of it. */
  lemma CutLosesOnlySpace(message: seq<Byte>, r: int)
    requires 0 <= r <= |message|
    ensures exists i, j :: r <= i <= j <= |message| && TrimSpace(message[r..]) == message[i..j] &&
                           AllSpace(message[r..i]) && AllSpace(message[j..])
  {
    var tail := message[r..];
    var i := LeadingSpace(tail);
    var k := TrailingSpace(tail[i..]);
    assert TrimSpace(tail) == message[r + i..r + i + k];
    assert message[r..r + i] == tail[..i];
    assert message[r + i + k..] == tail[i..][k..];
  }

  /** An over-long reply is split without loss: the head is shown, and what
      waits is the rest with only white space cut off around it; the shown
      part fits with its prompt and what waits is strictly shorter than the
      reply, so `/continue` eventually shows everything. */
  lemma SplitLosesOnlySpace(message: seq<Byte>)
    requires |message| > MaxMessageLen
    ensures |Shown(message)| <= MaxMessageLen
    ensures Shown(message) == message[..SplitIndex(message)] + ContinuePrompt
    ensures |Remainder(message)| <= |message| - MinSplitIndex
    ensures exists i, j :: SplitIndex(message) <= i <= j <= |message| && Remainder(message) == message[i..j] &&
                           AllSpace(message[SplitIndex(message)..i]) && AllSpace(message[j..])
  {
    CutLosesOnlySpace(message, SplitIndex(message));
  }

  /** What the commands may report besides the chat service's own error. */
  datatype SendError = SendFailed | NoContinuation

  /** The replies of every server, and what is left to show of each. */
  class ResponseManager {
    /** Per server, the rest of its last over-long reply ("" once taken). */
    var buffers: map<string, seq<Byte>>
    /** The messages the chat service accepted, in order. */
    var sent: seq<seq<Byte>>

    constructor ()
      ensures buffers == map[] && sent == []
    {
      buffers := map[];
      sent := [];
    }

    /** `updateBuffer`: replaces the server's pending text. */
    method UpdateBuffer(guildId: string, message: seq<Byte>)
      modifies this
      ensures buffers == old(buffers)[guildId := message] && sent == old(sent)
    {
      buffers := buffers[guildId := message];
    }

    /** `getBuffer`: takes the server's pending text, leaving "" behind; ""
        for a server that never had any. */
    method GetBuffer(guildId: string) returns (message: seq<Byte>)
      modifies this
      ensures guildId in old(buffers) ==> message == old(buffers)[guildId] && buffers == old(buffers)[guildId := []]
      ensures guildId !in old(buffers) ==> message == [] && buffers == old(buffers)
      ensures sent == old(sent)
    {
      if guildId !in buffers {
        return [];
      }
      message := buffers[guildId];
      buffers := buffers[guildId := []];
    }

    /** `InteractionRespond`: sends the reply, or its head and the prompt;
        only when that send succeeds does the rest become the server's pending
        text.  `sendFails` is the chat service's verdict on the send. */
    method InteractionRespond(guildId: string, message: seq<Byte>, sendFails: bool) returns (err: Option<SendError>)
      modifies this
      ensures err == (if sendFails then Some(SendFailed) else None)
      ensures sent == old(sent) + (if sendFails then [] else [Shown(message)])
      ensures buffers == if |message| > MaxMessageLen && !sendFails then old(buffers)[guildId := Remainder(message)]
                         else old(buffers)
      ensures forall i :: 0 <= i < |sent| ==> (|sent[i]| <= MaxMessageLen || i < |old(sent)|)
      decreases |message|
    {
      if |message| <= MaxMessageLen {
        if sendFails {
          return Some(SendFailed);
        }
        sent := sent + [message];
        return None;
      }
      var splitIndex := SplitIndex(message);
      var messageBuff := message[..splitIndex] + ContinuePrompt;
      err := InteractionRespond(guildId, messageBuff, sendFails);
      if err.None? {
        UpdateBuffer(guildId, TrimSpace(message[splitIndex..]));
      }
    }

    /** `InteractionContinue`: shows the server's pending text as a new reply;
        with nothing pending it is an error.  The text is taken before the
        send, so a failed send loses it. */
    method InteractionContinue(guildId: string, sendFails: bool) returns (err: Option<SendError>)
      modifies this
      ensures var pending := if guildId in old(buffers) then old(buffers)[guildId] else [];
        var taken := if guildId in old(buffers) then old(buffers)[guildId := []] else old(buffers);
        if pending == [] then
          err == Some(NoContinuation) && sent == old(sent) && buffers == taken
        else
          err == (if sendFails then Some(SendFailed) else None) &&
          sent == old(sent) + (if sendFails then [] else [Shown(pending)]) &&
          buffers == if |pending| > MaxMessageLen && !sendFails then taken[guildId := Remainder(pending)] else taken
    {
      var message := GetBuffer(guildId);
      if message == [] {
        return Some(NoContinuation);
      }
      err := InteractionRespond(guildId, message, sendFails);
    }
  }

  /** A reply of 1500 bytes is sent whole, nothing waits, and `/continue`
      then reports that there is nothing to show. */
  method ShortReplyLeavesNothingToContinue() returns (first: Option<SendError>, second: Option<SendError>, sent: seq<seq<Byte>>)
    ensures first == None && second == Some(NoContinuation)
    ensures sent == [seq(1500, _ => 120 as Byte)]
  {
    var manager := new ResponseManager();
    first := manager.InteractionRespond("guild", seq(1500, _ => 120 as Byte), false);
    second := manager.InteractionContinue("guild", false);
    sent := manager.sent;
  }
}
