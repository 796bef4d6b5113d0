/**
 The interview transcript: an ordered list of chat messages, each tagged with
 the role that wrote it, and the user-response filter of `analyze_responses`
 (hrms_app.py).
 */
module Transcript {

  datatype Role = Assistant | User

  /** One chat message, `{"role": ..., "content": ...}` in the source. */
  datatype Message = Message(role: Role, content: string)

  /** The number of messages in `ms` written by `role`. */
  function CountRole(ms: seq<Message>, role: Role): (n: nat)
    ensures n <= |ms|
  {
    if |ms| == 0 then 0
    else CountRole(ms[..|ms| - 1], role) + (if ms[|ms| - 1].role == role then 1 else 0)
  }

  /**
   The list comprehension of `analyze_responses`: a fresh user message with the
   same content for every user message, in transcript order.
   */
  function UserResponses(ms: seq<Message>): (r: seq<Message>)
    ensures |r| == CountRole(ms, User)
    ensures forall k :: 0 <= k < |r| ==> r[k].role == User
  {
    if |ms| == 0 then []
    else
      var last := ms[|ms| - 1];
      UserResponses(ms[..|ms| - 1]) + (if last.role == User then [Message(User, last.content)] else [])
  }

  /** The positions of the user messages of `ms`, in increasing order. */
  function UserPositions(ms: seq<Message>): (ps: seq<nat>)
    ensures forall k :: 0 <= k < |ps| ==> ps[k] < |ms| && ms[ps[k]].role == User
    ensures forall k, l :: 0 <= k < l < |ps| ==> ps[k] < ps[l]
    ensures forall i :: 0 <= i < |ms| && ms[i].role == User ==> i in ps
  {
    if |ms| == 0 then []
    else
      var n := |ms| - 1;
      var front := ms[..n];
      var ps := UserPositions(front);
      assert forall k :: 0 <= k < |ps| ==> ms[ps[k]] == front[ps[k]];
      ps + (if ms[n].role == User then [n] else [])
  }

  /**
   The filter keeps exactly the user messages, in their original order, with
   their content unchanged: the k-th response is the message at the k-th user position.
   */
  lemma {:induction false} UserResponsesAreUserMessages(ms: seq<Message>)
    ensures |UserResponses(ms)| == |UserPositions(ms)|
    ensures forall k :: 0 <= k < |UserResponses(ms)| ==>
      UserResponses(ms)[k] == ms[UserPositions(ms)[k]]
  {
    if |ms| > 0 {
      var n := |ms| - 1;
      var front := ms[..n];
      UserResponsesAreUserMessages(front);
      var rf, pf := UserResponses(front), UserPositions(front);
      var r, ps := UserResponses(ms), UserPositions(ms);
      assert r == rf + (if ms[n].role == User then [Message(User, ms[n].content)] else []);
      assert ps == pf + (if ms[n].role == User then [n] else []);
      forall k | 0 <= k < |r|
        ensures r[k] == ms[ps[k]]
      {
        if k < |rf| {
          assert r[k] == rf[k] == front[pf[k]];
          assert ps[k] == pf[k];
        } else {
          assert r[k] == Message(User, ms[n].content) == ms[n];
        }
      }
    }
  }

  /** The filter distributes over concatenation of transcripts. */
  lemma {:induction false} UserResponsesAppend(a: seq<Message>, b: seq<Message>)
    ensures UserResponses(a + b) == UserResponses(a) + UserResponses(b)
  {
    if |b| > 0 {
      var n := |b| - 1;
      assert (a + b)[..|a + b| - 1] == a + b[..n];
      UserResponsesAppend(a, b[..n]);
    } else {
      assert a + b == a;
    }
  }

  /** Every message is written by exactly one of the two roles. */
  lemma {:induction false} CountRolesPartition(ms: seq<Message>)
    ensures CountRole(ms, User) + CountRole(ms, Assistant) == |ms|
  {
    if |ms| > 0 {
      CountRolesPartition(ms[..|ms| - 1]);
    }
  }
}
