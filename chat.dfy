/**
 * `ChatManager`: the append-only message store, held in memory in place of the
 * messages file, and retrieval of the most recent messages.
 */
module Chat {
  import opened Wrappers

  datatype ChatMessage = ChatMessage(id: string, username: string, content: string, timestamp: string, filename: Option<string>)

  /** The `limit` used when a request gives none. */
  const DefaultLimit: int := 50

  function Min(a: int, b: int): int {
    if a <= b then a else b
  }

  /**
   * Python's `ms[-limit:]`: a start below zero counts from the end and is clamped at the
   * front, a start past the end is clamped at the end.
   */
  function Recent<T>(ms: seq<T>, limit: int): (r: seq<T>)
    ensures |r| <= |ms| && r == ms[|ms| - |r|..]
    ensures limit >= 1 ==> r == ms[|ms| - Min(limit, |ms|)..]
    ensures limit == 0 ==> r == ms
    ensures limit < 0 ==> r == ms[Min(-limit, |ms|)..]
  {
    var start := -limit;
    var i := if start < 0 then (if |ms| + start < 0 then 0 else |ms| + start)
             else (if start > |ms| then |ms| else start);
    ms[i..]
  }

  /** The default request returns the last 50 messages, or all of them when there are fewer. */
  lemma DefaultLimitKeepsLastFifty<T>(ms: seq<T>)
    ensures |Recent(ms, DefaultLimit)| == Min(50, |ms|)
    ensures Recent(ms, DefaultLimit) == ms[|ms| - Min(50, |ms|)..]
  {
  }

  /** After appending `m`, the most recent `limit` messages are the previous `limit - 1` followed by `m`. */
  lemma RecentAfterAppend<T>(ms: seq<T>, m: T, limit: int)
    requires limit >= 1
    ensures limit == 1 ==> Recent(ms + [m], limit) == [m]
    ensures limit >= 2 ==> Recent(ms + [m], limit) == Recent(ms, limit - 1) + [m]
  {
    var full := ms + [m];
    if limit >= 2 {
      var k := Min(limit - 1, |ms|);
      assert full[|full| - (k + 1)..] == ms[|ms| - k..] + [m];
    }
  }

  class ChatManager {
    /** The stored messages, oldest first. */
    var messages: seq<ChatMessage>

    /** Opening the store: existing messages are kept, a missing file starts empty. */
    constructor (stored: Option<seq<ChatMessage>>)
      ensures messages == (if stored.Some? then stored.value else [])
    {
      messages := if stored.Some? then stored.value else [];
    }

    /** `add_message`; `id` and `timestamp` are the fresh identifier and the current time. */
    method AddMessage(username: string, content: string, filename: Option<string>, id: string, timestamp: string)
      returns (m: ChatMessage)
      modifies this
      ensures m == ChatMessage(id, username, content, timestamp, filename)
      ensures messages == old(messages) + [m]
      ensures GetMessages(1) == [m]
    {
      m := ChatMessage(id, username, content, timestamp, filename);
      messages := messages + [m];
    }

    /** `get_messages(limit)`, reading the store without changing it. */
    function GetMessages(limit: int): (r: seq<ChatMessage>)
      reads this
      ensures limit >= 1 ==> r == messages[|messages| - Min(limit, |messages|)..]
      ensures limit == 0 ==> r == messages
      ensures limit < 0 ==> r == messages[Min(-limit, |messages|)..]
    {
      Recent(messages, limit)
    }
  }
}
