/** The dictionary-backed key/value store the tests substitute for MAUI Preferences: Set
    overwrites, Get falls back to a default, Remove and Clear delete. The history of
    writes is kept as ghost state so that what a lookup answers can be stated in terms of
    the calls that came before it. */
module Preferences {

  /** Get(key, defaultValue) on a dictionary. Only strings are ever stored, and a string's
      ToString() is itself, so a present key yields its value. */
  function Lookup(entries: map<string, string>, key: string, defaultValue: string): string {
    if key in entries then entries[key] else defaultValue
  }

  /** A call that changes the dictionary. */
  datatype Write = Set(key: string, value: string) | Remove(key: string) | Clear

  function Apply(entries: map<string, string>, w: Write): map<string, string> {
    match w
    case Set(k, v) => entries[k := v]
    case Remove(k) => entries - {k}
    case Clear => map[]
  }

  /** The dictionary after a sequence of writes to an empty one. */
  function Replay(history: seq<Write>): map<string, string>
    decreases |history|
  {
    if |history| == 0 then map[]
    else Apply(Replay(history[..|history| - 1]), history[|history| - 1])
  }

  /** A write that deletes `key`. */
  predicate Erases(w: Write, key: string) {
    w.Clear? || (w.Remove? && w.key == key)
  }

  /** Write i set `key`, and no later write deleted or set it again. */
  predicate LastSetOf(history: seq<Write>, key: string, i: int) {
    && 0 <= i < |history|
    && history[i].Set? && history[i].key == key
    && forall j :: i < j < |history| ==> !Erases(history[j], key) && !(history[j].Set? && history[j].key == key)
  }

  /** Write i set `key`, and no later write deleted it. */
  predicate SetSince(history: seq<Write>, key: string, i: int) {
    && 0 <= i < |history|
    && history[i].Set? && history[i].key == key
    && forall j :: i < j < |history| ==> !Erases(history[j], key)
  }

  /** A key is present exactly when it was set and neither removed nor cleared since. */
  lemma {:induction false} PresentIffSetSince(history: seq<Write>, key: string)
    ensures key in Replay(history) <==> exists i :: SetSince(history, key, i)
    decreases |history|
  {
    if |history| > 0 {
      var n := |history| - 1;
      var prefix := history[..n];
      PresentIffSetSince(prefix, key);
      if key in Replay(history) {
        if history[n].Set? && history[n].key == key {
          assert SetSince(history, key, n);
        } else {
          var i :| SetSince(prefix, key, i);
          assert SetSince(history, key, i);
        }
      }
      if exists i :: SetSince(history, key, i) {
        var i :| SetSince(history, key, i);
        if i < n {
          assert SetSince(prefix, key, i);
        }
      }
    }
  }

  /** The value of a key is the one its last Set wrote: the last write wins. */
  lemma {:induction false} LastWriteWins(history: seq<Write>, key: string, i: int, defaultValue: string)
    requires LastSetOf(history, key, i)
    ensures Lookup(Replay(history), key, defaultValue) == history[i].value
    decreases |history|
  {
    var n := |history| - 1;
    if i < n {
      LastWriteWins(history[..n], key, i, defaultValue);
    }
  }

  /** A write to another key never changes the answer for `key`. */
  lemma OtherKeyUnchanged(entries: map<string, string>, w: Write, key: string, defaultValue: string)
    requires !w.Clear? && w.key != key
    ensures Lookup(Apply(entries, w), key, defaultValue) == Lookup(entries, key, defaultValue)
  {
  }

  class TestPreferences {
    /** _preferences. */
    var entries: map<string, string>
    /** Every write since the dictionary was created. */
    ghost var history: seq<Write>

    ghost predicate Valid()
      reads this
    {
      entries == Replay(history)
    }

    constructor()
      ensures Valid() && entries == map[] && history == []
    {
      entries := map[];
      history := [];
    }

    method Set(key: string, value: string)
      requires Valid()
      modifies this
      ensures Valid() && history == old(history) + [Write.Set(key, value)]
      ensures entries == old(entries)[key := value]
    {
      history := history + [Write.Set(key, value)];
      entries := entries[key := value];
      assert history[..|history| - 1] == old(history);
    }

    function Get(key: string, defaultValue: string): string
      reads this
    {
      Lookup(entries, key, defaultValue)
    }

    method Remove(key: string)
      requires Valid()
      modifies this
      ensures Valid() && history == old(history) + [Write.Remove(key)]
      ensures entries == old(entries) - {key}
    {
      history := history + [Write.Remove(key)];
      entries := entries - {key};
      assert history[..|history| - 1] == old(history);
    }

    method Clear()
      requires Valid()
      modifies this
      ensures Valid() && history == old(history) + [Write.Clear]
      ensures entries == map[]
    {
      history := history + [Write.Clear];
      entries := map[];
      assert history[..|history| - 1] == old(history);
    }

    function ContainsKey(key: string): bool
      reads this
    {
      key in entries
    }
  }

  /** ContainsKey(k) holds exactly when k was set and not removed or cleared since, and Get
      answers the value of the last Set of k. */
  lemma ContainsKeyIffSetSince(p: TestPreferences, key: string, defaultValue: string)
    requires p.Valid()
    ensures p.ContainsKey(key) <==> exists i :: SetSince(p.history, key, i)
    ensures forall i :: LastSetOf(p.history, key, i) ==> p.Get(key, defaultValue) == p.history[i].value
    ensures !p.ContainsKey(key) ==> p.Get(key, defaultValue) == defaultValue
  {
    PresentIffSetSince(p.history, key);
    forall i | LastSetOf(p.history, key, i) ensures p.Get(key, defaultValue) == p.history[i].value {
      LastWriteWins(p.history, key, i, defaultValue);
    }
  }
}
