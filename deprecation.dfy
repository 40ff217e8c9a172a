/**
 * `React::Component.deprecation_warning`: every message is prefixed with the
 * module's name and logged only the first time it is seen; the module keeps
 * the messages it has logged.
 */
module Deprecation {

  /** The text put in front of every message (`name` is "React::Component"). */
  const Prefix: string := "Warning: Deprecated feature used in React::Component. "

  function Prefixed(message: string): string {
    Prefix + message
  }

  ghost predicate NoDuplicates(ms: seq<string>) {
    forall i, j :: 0 <= i < j < |ms| ==> ms[i] != ms[j]
  }

  /** The stored messages after warning with an already prefixed message. */
  function Recorded(ms: seq<string>, prefixed: string): seq<string> {
    if prefixed in ms then ms else ms + [prefixed]
  }

  /** The stored messages after warning with each of `messages` in turn. */
  function RecordedAll(ms: seq<string>, messages: seq<string>): seq<string>
    decreases |messages|
  {
    if messages == [] then ms else RecordedAll(Recorded(ms, Prefixed(messages[0])), messages[1..])
  }

  /** Distinct messages give distinct log lines. */
  lemma PrefixedInjective(a: string, b: string)
    ensures Prefixed(a) == Prefixed(b) ==> a == b
  {
    if Prefixed(a) == Prefixed(b) {
      assert a == Prefixed(a)[|Prefix|..];
      assert b == Prefixed(b)[|Prefix|..];
    }
  }

  /** The stored list only grows at its end: the messages stored before a
      run of warnings stay in place, in order. */
  lemma {:induction false} RecordedAllExtends(ms: seq<string>, messages: seq<string>)
    ensures |ms| <= |RecordedAll(ms, messages)| && RecordedAll(ms, messages)[..|ms|] == ms
    decreases |messages|
  {
    if messages != [] {
      var next := Recorded(ms, Prefixed(messages[0]));
      RecordedAllExtends(next, messages[1..]);
      assert next[..|ms|] == ms;
    }
  }

  /** No run of warnings stores a message twice. */
  lemma {:induction false} RecordedAllNoDuplicates(ms: seq<string>, messages: seq<string>)
    requires NoDuplicates(ms)
    ensures NoDuplicates(RecordedAll(ms, messages))
    decreases |messages|
  {
    if messages != [] {
      RecordedAllNoDuplicates(Recorded(ms, Prefixed(messages[0])), messages[1..]);
    }
  }

  /** After a run of warnings the stored list holds exactly the old messages
      and the prefixed form of every warning given. */
  lemma {:induction false} RecordedAllMembers(ms: seq<string>, messages: seq<string>, x: string)
    ensures x in RecordedAll(ms, messages) <==> x in ms || exists i :: 0 <= i < |messages| && x == Prefixed(messages[i])
    decreases |messages|
  {
    if messages != [] {
      RecordedAllMembers(Recorded(ms, Prefixed(messages[0])), messages[1..], x);
      if exists i :: 0 <= i < |messages[1..]| && x == Prefixed(messages[1..][i]) {
        var i :| 0 <= i < |messages[1..]| && x == Prefixed(messages[1..][i]);
        assert x == Prefixed(messages[i + 1]);
      }
      if exists i :: 0 <= i < |messages| && x == Prefixed(messages[i]) {
        var i :| 0 <= i < |messages| && x == Prefixed(messages[i]);
        if i > 0 {
          assert x == Prefixed(messages[1..][i - 1]);
        }
      }
    }
  }

  /** Warning twice with the same message stores and logs it once. */
  lemma RepeatedWarningIsIgnored(ms: seq<string>, message: string)
    ensures RecordedAll(ms, [message, message]) == RecordedAll(ms, [message])
  {
  }

  /** The module-level `@deprecation_messages` list. */
  class DeprecationLog {
    var messages: seq<string>

    ghost predicate Valid()
      reads this
    {
      NoDuplicates(messages)
    }

    /** `@deprecation_messages ||= []` on first use. */
    constructor ()
      ensures Valid() && messages == []
    {
      messages := [];
    }

    /** `deprecation_warning`: prefix the message, and store and log it
        (`logged`) only when it is not stored already. */
    method Warn(message: string) returns (logged: bool)
      requires Valid()
      modifies this
      ensures Valid()
      ensures messages == Recorded(old(messages), Prefixed(message))
      ensures Prefixed(message) in messages
      ensures logged <==> Prefixed(message) !in old(messages)
    {
      var line := Prefix + message;
      logged := line !in messages;
      if logged {
        messages := messages + [line];
      }
    }
  }
}
