/** The message list the server sends to the chat-completion provider
    (`formatMessages` in services/openaiService.js): a fixed system prompt, then
    the usable entries of the conversation history in their original order, then
    the new user message. */
module OpenAiService {
  import opened Wrappers

  datatype ChatMessage = ChatMessage(role: string, content: string)

  /** A history entry as the caller hands it over: either field may be missing. */
  datatype HistoryEntry = HistoryEntry(role: Option<string>, content: Option<string>)

  const SystemPrompt: string :=
    "You are Merlin, a helpful AI assistant specializing in crypto trading insights and analysis. Provide clear, concise, and informative responses."

  const SystemMessage: ChatMessage := ChatMessage("system", SystemPrompt)

  /** An entry is kept when both its role and its content are truthy. */
  predicate IsKept(entry: HistoryEntry)
  {
    Truthy(entry.role) && Truthy(entry.content)
  }

  /** The message a kept entry becomes: its role and its content, nothing else. */
  function Copy(entry: HistoryEntry): ChatMessage
    requires IsKept(entry)
  {
    ChatMessage(entry.role.value, entry.content.value)
  }

  /** `conversationHistory = []`: an absent history is the empty one. */
  function EntriesOf(history: Option<seq<HistoryEntry>>): seq<HistoryEntry>
  {
    match history
    case None => []
    case Some(entries) => entries
  }

  /** The kept entries of the history, copied, in their original order. */
  function KeptHistory(history: seq<HistoryEntry>): (kept: seq<ChatMessage>)
    ensures |kept| <= |history|
  {
    if history == [] then []
    else
      var last := history[|history| - 1];
      KeptHistory(history[..|history| - 1]) + (if IsKept(last) then [Copy(last)] else [])
  }

  /** The positions of the kept entries, in increasing order: a reference
      description of which entries survive, independent of the copying. */
  function KeptPositions(history: seq<HistoryEntry>): (positions: seq<nat>)
    ensures forall j :: 0 <= j < |positions| ==> positions[j] < |history| && IsKept(history[positions[j]])
    ensures forall j, k :: 0 <= j < k < |positions| ==> positions[j] < positions[k]
    ensures forall i :: 0 <= i < |history| && IsKept(history[i]) ==> i in positions
  {
    if history == [] then []
    else
      var n := |history| - 1;
      var earlier := KeptPositions(history[..n]);
      assert forall i :: 0 <= i < n ==> history[..n][i] == history[i];
      earlier + (if IsKept(history[n]) then [n] else [])
  }

  /** The j-th kept message is the copy of the entry at the j-th kept position:
      kept entries keep their order and only their role and content. */
  lemma {:induction false} KeptHistoryFollowsPositions(history: seq<HistoryEntry>)
    ensures |KeptHistory(history)| == |KeptPositions(history)|
    ensures forall j :: 0 <= j < |KeptPositions(history)| ==>
              KeptHistory(history)[j] == Copy(history[KeptPositions(history)[j]])
  {
    if history != [] {
      var n := |history| - 1;
      KeptHistoryFollowsPositions(history[..n]);
      forall j | 0 <= j < |KeptPositions(history[..n])|
        ensures history[..n][KeptPositions(history[..n])[j]] == history[KeptPositions(history[..n])[j]]
      {
      }
    }
  }

  /** Filtering a concatenation filters each part. */
  lemma {:induction false} KeptHistoryAppend(front: seq<HistoryEntry>, back: seq<HistoryEntry>)
    ensures KeptHistory(front + back) == KeptHistory(front) + KeptHistory(back)
    decreases |back|
  {
    if back == [] {
      assert front + back == front;
    } else {
      var n := |back| - 1;
      assert (front + back)[..|front + back| - 1] == front + back[..n];
      assert (front + back)[|front + back| - 1] == back[n];
      KeptHistoryAppend(front, back[..n]);
    }
  }

  /** A history whose every entry is usable is copied whole. */
  lemma {:induction false} KeptHistoryOfUsable(history: seq<HistoryEntry>)
    requires forall i :: 0 <= i < |history| ==> IsKept(history[i])
    ensures |KeptHistory(history)| == |history|
    ensures forall i :: 0 <= i < |history| ==> KeptHistory(history)[i] == Copy(history[i])
  {
    if history != [] {
      var n := |history| - 1;
      KeptHistoryOfUsable(history[..n]);
    }
  }

  /** A history with no usable entry contributes nothing. */
  lemma {:induction false} KeptHistoryOfUnusable(history: seq<HistoryEntry>)
    requires forall i :: 0 <= i < |history| ==> !IsKept(history[i])
    ensures KeptHistory(history) == []
  {
    if history != [] {
      KeptHistoryOfUnusable(history[..|history| - 1]);
    }
  }

  /** Every copied history message has a non-empty role and a non-empty content. */
  lemma {:induction false} KeptMessagesAreNonEmpty(history: seq<HistoryEntry>)
    ensures forall m :: m in KeptHistory(history) ==> m.role != "" && m.content != ""
  {
    if history != [] {
      KeptMessagesAreNonEmpty(history[..|history| - 1]);
    }
  }

  /** With no history, the provider gets just the system prompt and the user message. */
  lemma AbsentHistoryIsEmpty(newMessage: string)
    ensures [SystemMessage] + KeptHistory(EntriesOf(None)) + [ChatMessage("user", newMessage)]
            == [SystemMessage, ChatMessage("user", newMessage)]
  {
  }

  /** `formatMessages(conversationHistory, newMessage)`. */
  method FormatMessages(history: Option<seq<HistoryEntry>>, newMessage: string) returns (messages: seq<ChatMessage>)
    ensures messages == [SystemMessage] + KeptHistory(EntriesOf(history)) + [ChatMessage("user", newMessage)]
    ensures |messages| == 2 + |KeptPositions(EntriesOf(history))|
    ensures messages[0] == SystemMessage
    ensures messages[|messages| - 1] == ChatMessage("user", newMessage)
  {
    var entries := EntriesOf(history);
    messages := [SystemMessage];
    for i := 0 to |entries|
      invariant messages == [SystemMessage] + KeptHistory(entries[..i])
    {
      var entry := entries[i];
      if Truthy(entry.role) && Truthy(entry.content) {
        messages := messages + [ChatMessage(entry.role.value, entry.content.value)];
      }
      assert entries[..i + 1][..i] == entries[..i];
    }
    assert entries[..|entries|] == entries;
    messages := messages + [ChatMessage("user", newMessage)];
    KeptHistoryFollowsPositions(entries);
  }
}
