/** The cache as one map from keys to entries, driven by a log of what workspaces wrote and removed: the
    specification the two-key store of cmd/cachenode refines. */
module CacheSpec {
  import opened RedisModel

  datatype Entry = Entry(value: string, owner: string, expiry: Expiry)

  type Store = map<string, Entry>

  datatype Event =
    | Wrote(key: string, value: string, ws: string, expiry: Expiry, at: int)
    | Removed(key: string, ws: string, at: int)
    | Flushed(keys: set<string>, at: int)

  function Apply(store: Store, e: Event): Store {
    match e
    case Wrote(k, v, w, x, _) => store[k := Entry(v, w, x)]
    case Removed(k, _, _) => store - {k}
    case Flushed(ks, _) => store - ks
  }

  /** The store after a log. */
  function Fold(log: seq<Event>): Store {
    if log == [] then map[] else Apply(Fold(log[..|log| - 1]), log[|log| - 1])
  }

  predicate LiveEntry(store: Store, k: string, now: int) {
    k in store && Unexpired(store[k].expiry, now)
  }

  /** `k` holds a live entry of a workspace other than `w`. */
  predicate OtherOwns(store: Store, k: string, w: string, now: int) {
    LiveEntry(store, k, now) && store[k].owner != w
  }

  predicate About(e: Event, k: string) {
    match e
    case Wrote(k', _, _, _, _) => k' == k
    case Removed(k', _, _) => k' == k
    case Flushed(ks, _) => k in ks
  }

  /** An event allowed after `log`: not before it, and no workspace touches another's live entry. */
  predicate Allowed(log: seq<Event>, e: Event) {
    && (log != [] ==> log[|log| - 1].at <= e.at)
    && match e {
         case Wrote(k, v, w, _, at) => v != "" && w != "" && !OtherOwns(Fold(log), k, w, at)
         case Removed(k, w, at) => w != "" && !OtherOwns(Fold(log), k, w, at)
         case Flushed(_, _) => true
       }
  }

  predicate Lawful(log: seq<Event>) {
    log != [] ==> Lawful(log[..|log| - 1]) && Allowed(log[..|log| - 1], log[|log| - 1])
  }

  lemma FoldNext(log: seq<Event>, e: Event)
    ensures Fold(log + [e]) == Apply(Fold(log), e)
    ensures Lawful(log + [e]) <==> Lawful(log) && Allowed(log, e)
  {
    assert (log + [e])[..|log|] == log;
  }

  // ---------------------------------------------------------------------------
  // Runs

  /** `i` is where the entry under `k` was written: nothing later in the log is about `k`. */
  predicate WrittenAt(log: seq<Event>, k: string, entry: Entry, i: int) {
    && 0 <= i < |log| && log[i].Wrote? && log[i].key == k
    && Entry(log[i].value, log[i].ws, log[i].expiry) == entry
    && forall j | i < j < |log| :: !About(log[j], k)
  }

  /** The store holds under `k` exactly what the last event about `k` wrote there. */
  lemma {:induction false} StoreIsLastWrite(log: seq<Event>, k: string, entry: Entry)
    ensures k in Fold(log) && Fold(log)[k] == entry <==> exists i :: WrittenAt(log, k, entry, i)
  {
    if log != [] {
      var n := |log| - 1;
      StoreIsLastWrite(log[..n], k, entry);
      if About(log[n], k) {
        assert log[n].Wrote? && Entry(log[n].value, log[n].ws, log[n].expiry) == entry ==> WrittenAt(log, k, entry, n);
      } else {
        if i :| WrittenAt(log[..n], k, entry, i) {
          assert WrittenAt(log, k, entry, i);
        }
        if i :| WrittenAt(log, k, entry, i) {
          assert WrittenAt(log[..n], k, entry, i);
        }
      }
    }
  }

  predicate WrittenBy(log: seq<Event>, k: string, w: string, v: string, now: int, i: int) {
    && 0 <= i < |log| && log[i].Wrote? && Unexpired(log[i].expiry, now)
    && WrittenAt(log, k, Entry(v, w, log[i].expiry), i)
  }

  /** The last thing that happened to `k` is that `w` wrote `v` there, and that entry is still alive. */
  ghost predicate LastWrote(log: seq<Event>, k: string, w: string, v: string, now: int) {
    exists i :: WrittenBy(log, k, w, v, now, i)
  }

  lemma LiveEntryIsLastWrite(log: seq<Event>, k: string, w: string, v: string, now: int)
    ensures LiveEntry(Fold(log), k, now) && Fold(log)[k].owner == w && Fold(log)[k].value == v
            <==> LastWrote(log, k, w, v, now)
  {
    if k in Fold(log) {
      var entry := Fold(log)[k];
      StoreIsLastWrite(log, k, entry);
      var i :| WrittenAt(log, k, entry, i);
      assert entry.owner == w && entry.value == v && Unexpired(entry.expiry, now) ==> WrittenBy(log, k, w, v, now, i);
    }
    if i :| WrittenBy(log, k, w, v, now, i) {
      StoreIsLastWrite(log, k, Entry(v, w, log[i].expiry));
    }
  }

  lemma LiveEntriesAreLastWrites(log: seq<Event>, k: string, w: string, now: int)
    ensures forall v :: LastWrote(log, k, w, v, now) <==>
              LiveEntry(Fold(log), k, now) && Fold(log)[k].owner == w && Fold(log)[k].value == v
  {
    forall v ensures LastWrote(log, k, w, v, now) <==>
              LiveEntry(Fold(log), k, now) && Fold(log)[k].owner == w && Fold(log)[k].value == v
    {
      LiveEntryIsLastWrite(log, k, w, v, now);
    }
  }

  /** Neither its owner nor the operator touched the entry after it was written at `i`. */
  predicate LeftAlone(log: seq<Event>, k: string, w: string, i: nat) {
    forall j | i < j < |log| && About(log[j], k) :: !log[j].Flushed? && log[j].ws != w
  }

  /** While it lives, an entry stays what its owner wrote, whatever other workspaces ask for. */
  lemma {:induction false} EntrySurvivesOthers(log: seq<Event>, i: nat, now: int)
    requires Lawful(log) && i < |log| && log[i].Wrote?
    requires LeftAlone(log, log[i].key, log[i].ws, i)
    requires log[|log| - 1].at <= now && Unexpired(log[i].expiry, now)
    ensures log[i].key in Fold(log)
    ensures Fold(log)[log[i].key] == Entry(log[i].value, log[i].ws, log[i].expiry)
    decreases |log|
  {
    var n := |log| - 1;
    var front := log[..n];
    if i < n {
      var k := log[i].key;
      assert log[..n][n - 1] == log[n - 1];
      assert front[i] == log[i];
      assert LeftAlone(front, k, log[i].ws, i) by {
        forall j | i < j < n && About(front[j], k) ensures !front[j].Flushed? && front[j].ws != log[i].ws {
          assert front[j] == log[j];
        }
      }
      EntrySurvivesOthers(front, i, now);
      if About(log[n], k) {
        assert !log[n].Flushed? && log[n].ws != log[i].ws;
        assert Unexpired(log[i].expiry, log[n].at);
        assert OtherOwns(Fold(front), k, log[n].ws, log[n].at);
      }
    }
  }

  /** Values are never empty and always owned. */
  lemma {:induction false} EntriesWellFormed(log: seq<Event>, k: string)
    requires Lawful(log) && k in Fold(log)
    ensures Fold(log)[k].value != "" && Fold(log)[k].owner != ""
  {
    var n := |log| - 1;
    if log[n].Wrote? && log[n].key == k {
    } else {
      EntriesWellFormed(log[..n], k);
    }
  }
}
