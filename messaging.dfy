/** Direct messages: the two-way conversation filter of `dm` and the partner set of `inbox`. */
module Messaging {
  import opened Tables

  /** A conversation row: sender_id, message, created_at. */
  datatype ChatLine = ChatLine(senderId: int, text: string, createdAt: Timestamp)

  /** `(sender_id=a AND receiver_id=b) OR (sender_id=b AND receiver_id=a)`. */
  predicate Between(m: Message, a: int, b: int) {
    (m.senderId == a && m.receiverId == b) || (m.senderId == b && m.receiverId == a)
  }

  predicate MessagesByTime(msgs: seq<Message>) {
    forall i, j | 0 <= i < j < |msgs| :: msgs[i].createdAt <= msgs[j].createdAt
  }

  predicate LinesByTime(lines: seq<ChatLine>) {
    forall i, j | 0 <= i < j < |lines| :: lines[i].createdAt <= lines[j].createdAt
  }

  /** The conversation row the query selects for a message. */
  function LineOf(m: Message): ChatLine {
    ChatLine(m.senderId, m.text, m.createdAt)
  }

  /** The conversation between `me` and `you`, over the messages in the order the query's
      ORDER BY produced. */
  function Conversation(msgs: seq<Message>, me: int, you: int): (r: seq<ChatLine>)
    ensures |r| <= |msgs|
    ensures forall line | line in r :: line.senderId == me || line.senderId == you
    ensures r == [] <==> forall m | m in msgs :: !Between(m, me, you)
    ensures forall line | line in r :: exists m | m in msgs && Between(m, me, you) :: line == LineOf(m)
  {
    if msgs == [] then []
    else
      var rest := Conversation(msgs[1..], me, you);
      assert forall m | m in msgs :: m == msgs[0] || m in msgs[1..];
      var m := msgs[0];
      if Between(m, me, you) then [LineOf(m)] + rest else rest
  }

  /** Every message between the two is in their conversation. */
  lemma {:induction false} ConversationComplete(msgs: seq<Message>, me: int, you: int, m: Message)
    requires m in msgs && Between(m, me, you)
    ensures LineOf(m) in Conversation(msgs, me, you)
  {
    if msgs[0] != m {
      assert m in msgs[1..];
      ConversationComplete(msgs[1..], me, you, m);
    }
  }

  /** The messages exchanged between `a` and `b`. */
  function MessagesBetween(msgs: seq<Message>, a: int, b: int): set<Message> {
    set m | m in msgs && Between(m, a, b)
  }

  /** One line per message between the two: messages have distinct ids, so no message is
      shown twice or left out. */
  lemma {:induction false} ConversationCount(msgs: seq<Message>, me: int, you: int)
    requires NoDuplicates(msgs)
    ensures |Conversation(msgs, me, you)| == |MessagesBetween(msgs, me, you)|
  {
    if msgs != [] {
      var rest := msgs[1..];
      NoDuplicatesTail(msgs);
      ConversationCount(rest, me, you);
      var all, tail := MessagesBetween(msgs, me, you), MessagesBetween(rest, me, you);
      assert forall m | m in msgs :: m == msgs[0] || m in rest;
      if Between(msgs[0], me, you) {
        assert all == tail + {msgs[0]};
      } else {
        assert all == tail;
      }
    }
  }

  /** Both participants see the same conversation. */
  lemma {:induction false} ConversationSymmetric(msgs: seq<Message>, a: int, b: int)
    ensures Conversation(msgs, a, b) == Conversation(msgs, b, a)
  {
    if msgs != [] {
      ConversationSymmetric(msgs[1..], a, b);
    }
  }

  /** Messages in time order give a conversation in time order. */
  lemma {:induction false} ConversationOrdered(msgs: seq<Message>, me: int, you: int)
    requires MessagesByTime(msgs)
    ensures LinesByTime(Conversation(msgs, me, you))
  {
    if msgs != [] {
      var tail := msgs[1..];
      assert MessagesByTime(tail) by {
        forall i, j | 0 <= i < j < |tail| ensures tail[i].createdAt <= tail[j].createdAt {
          assert tail[i] == msgs[i + 1] && tail[j] == msgs[j + 1];
        }
      }
      ConversationOrdered(tail, me, you);
      var rest := Conversation(tail, me, you);
      forall line | line in rest ensures msgs[0].createdAt <= line.createdAt {
        var m :| m in tail && Between(m, me, you) && line == LineOf(m);
        var k :| 0 <= k < |tail| && tail[k] == m;
        assert msgs[k + 1] == m;
      }
    }
  }

  /** Sending appends a line to the conversation of its two ends, over the messages in rowid
      order, and changes no other conversation. In the `ORDER BY created_at` order the reader
      sees, the new line comes last only when its time is the latest clock reading. */
  lemma {:induction false} ConversationAfterSend(msgs: seq<Message>, m: Message, a: int, b: int)
    ensures Conversation(msgs + [m], a, b) ==
            Conversation(msgs, a, b) + (if Between(m, a, b) then [LineOf(m)] else [])
  {
    if msgs != [] {
      assert (msgs + [m])[1..] == msgs[1..] + [m];
      ConversationAfterSend(msgs[1..], m, a, b);
    } else {
      assert (msgs + [m])[1..] == [];
    }
  }

  /** `inbox`: everyone `me` sent to, united with everyone who sent to `me`. */
  function Inbox(msgs: seq<Message>, me: int): (r: set<int>)
    ensures forall x :: x in r <==> Conversation(msgs, me, x) != []
  {
    (set m | m in msgs && m.senderId == me :: m.receiverId)
    + (set m | m in msgs && m.receiverId == me :: m.senderId)
  }
}
