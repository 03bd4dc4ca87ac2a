/** The last-writer-wins register, and replicas of it over an unreliable network. */
module Registers {
  import opened Common

  type Value = string
  type Node = string

  datatype State = State(value: Option<Value>, timestamp: real, node: Node)

  // ---------- the order on stamps ----------

  // Strings compare character by character, a proper prefix first.
  predicate Less(s: string, t: string) {
    if t == [] then false
    else if s == [] then true
    else if s[0] != t[0] then s[0] < t[0]
    else Less(s[1..], t[1..])
  }

  predicate Older(a: State, b: State) {
    a.timestamp < b.timestamp || (a.timestamp == b.timestamp && Less(a.node, b.node))
  }

  ghost predicate SameStamp(a: State, b: State) {
    a.timestamp == b.timestamp && a.node == b.node
  }

  lemma {:induction false} LessIsIrreflexive(s: string)
    ensures !Less(s, s)
  {
    if s != [] {
      LessIsIrreflexive(s[1..]);
    }
  }

  lemma {:induction false} LessIsStrictTotal(s: string, t: string, u: string)
    ensures !Less(s, s)
    ensures Less(s, t) ==> !Less(t, s)
    ensures s == t || Less(s, t) || Less(t, s)
    ensures Less(s, t) && Less(t, u) ==> Less(s, u)
  {
    LessIsIrreflexive(s);
    if s != [] && t != [] && s[0] == t[0] {
      assert s == [s[0]] + s[1..] && t == [t[0]] + t[1..];
      LessIsStrictTotal(s[1..], t[1..], if u == [] then [] else u[1..]);
    }
  }

  lemma OlderIsStrictTotal(a: State, b: State, c: State)
    ensures !Older(a, a)
    ensures Older(a, b) ==> !Older(b, a) && !SameStamp(a, b)
    ensures SameStamp(a, b) || Older(a, b) || Older(b, a)
    ensures Older(a, b) && Older(b, c) ==> Older(a, c)
  {
    LessIsStrictTotal(a.node, b.node, c.node);
    LessIsStrictTotal(a.node, a.node, a.node);
  }

  // ---------- the operations ----------

  function AfterSet(s: State, v: Value, timestamp: real, node: Option<Node>): State {
    State(Some(v), timestamp, if node.Some? then node.value else s.node)
  }

  function Merged(a: State, b: State): State {
    if Older(a, b) then b else a
  }

  // Where two strings first differ, or one ends, decides: the lesser ends there or has the
  // lesser character.
  ghost predicate DecidedAt(s: string, t: string, i: nat) {
    i <= |s| && i < |t| && s[..i] == t[..i] && (i == |s| || s[i] < t[i])
  }

  lemma {:induction false} LessIsLexicographic(s: string, t: string)
    ensures Less(s, t) <==> exists i :: DecidedAt(s, t, i)
  {
    if t != [] && s != [] && s[0] == t[0] {
      LessIsLexicographic(s[1..], t[1..]);
      if i: nat :| DecidedAt(s[1..], t[1..], i) {
        assert s[..i + 1] == [s[0]] + s[1..][..i] && t[..i + 1] == [t[0]] + t[1..][..i];
        assert DecidedAt(s, t, i + 1);
      }
      if i: nat :| DecidedAt(s, t, i) {
        assert i > 0;
        assert s[1..][..i - 1] == s[..i][1..] && t[1..][..i - 1] == t[..i][1..];
        assert DecidedAt(s[1..], t[1..], i - 1);
      }
    } else if t != [] && (s == [] || s[0] < t[0]) {
      assert DecidedAt(s, t, 0);
    } else if t != [] {
      forall i: nat | 0 < i <= |s| && i < |t| ensures s[..i] != t[..i] {
        assert s[..i][0] == s[0] && t[..i][0] == t[0];
      }
    }
  }

  // What a merge keeps: the later write; of two at one time, that of the node whose name
  // comes later in the dictionary; of two under one stamp, its own.
  lemma NewerWins(a: State, b: State)
    ensures a.timestamp > b.timestamp ==> Merged(a, b) == a
    ensures a.timestamp < b.timestamp ==> Merged(a, b) == b
    ensures a.timestamp == b.timestamp && a.node != b.node ==>
      (Merged(a, b) == b <==> exists i :: DecidedAt(a.node, b.node, i)) &&
      (Merged(a, b) == a <==> exists i :: DecidedAt(b.node, a.node, i))
    ensures a.timestamp == b.timestamp && a.node == b.node ==> Merged(a, b) == a
  {
    LessIsLexicographic(a.node, b.node);
    LessIsLexicographic(b.node, a.node);
    LessIsStrictTotal(a.node, b.node, a.node);
    hide DecidedAt, Less;
  }

  // The newer stamp wins; merge commutes exactly when equal stamps carry equal values.
  lemma MergeLaws(a: State, b: State, c: State)
    ensures Merged(Merged(a, b), c) == Merged(a, Merged(b, c))
    ensures Merged(a, a) == a
    ensures Merged(a, b) == Merged(b, a) <==> (SameStamp(a, b) ==> a.value == b.value)
    ensures !Older(Merged(a, b), a) && !Older(Merged(a, b), b)
  {
    OlderIsStrictTotal(a, b, c);
    OlderIsStrictTotal(b, a, c);
    OlderIsStrictTotal(b, c, a);
    OlderIsStrictTotal(a, c, b);
    OlderIsStrictTotal(c, a, b);
    OlderIsStrictTotal(c, b, a);
    SameStampRanksAlike(a, b, c);
    SameStampRanksAlike(b, c, a);
    hide Less;
  }

  lemma SameStampRanksAlike(a: State, b: State, c: State)
    ensures SameStamp(a, b) ==> (Older(a, c) <==> Older(b, c)) && (Older(c, a) <==> Older(c, b))
  {
  }

  class LWWRegister {
    var value: Option<Value>
    var timestamp: real
    var node: Node

    function Contents(): State
      reads this
    {
      State(value, timestamp, node)
    }

    // `now` is the reading of the clock.
    constructor (initial: Option<Value>, node: Node, now: real)
      ensures Contents() == State(initial, if initial.Some? then now else 0.0, node)
    {
      this.value := initial;
      this.timestamp := if initial.Some? then now else 0.0;
      this.node := node;
    }

    method Set(v: Value, timestamp: Option<real>, node: Option<Node>, now: real)
      modifies this
      ensures value == Some(v)
      ensures this.timestamp == if timestamp.Some? then timestamp.value else now
      ensures this.node == if node.Some? then node.value else old(this.node)
      ensures Contents() == AfterSet(old(Contents()), v, this.timestamp, node)
    {
      this.value := Some(v);
      this.timestamp := if timestamp.Some? then timestamp.value else now;
      if node.Some? {
        this.node := node.value;
      }
    }

    method Merge(other: LWWRegister)
      modifies this
      ensures Contents() == Merged(old(Contents()), old(other.Contents()))
    {
      if other.timestamp > timestamp {
        value, timestamp, node := other.value, other.timestamp, other.node;
      } else if other.timestamp == timestamp && Less(node, other.node) {
        value, timestamp, node := other.value, other.timestamp, other.node;
      }
    }
  }
}
