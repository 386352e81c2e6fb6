/** The Redis server behind the cache node, as far as the node uses it: string cells with an expiry,
    pipelines, STRLEN and SCAN.

    Every command may fail, and time may pass before every command. A pipeline is one step; a pipeline whose
    reply is an error was either carried out or not. A string stands for a byte string, one byte a char. */
module RedisModel {
  type Key = string

  datatype Expiry = Never | At(deadline: int)

  datatype Cell = Cell(value: string, expiry: Expiry)

  type Db = map<Key, Cell>

  predicate Unexpired(e: Expiry, now: int) { e.Never? || now < e.deadline }

  predicate Live(db: Db, now: int, k: Key) { k in db && Unexpired(db[k].expiry, now) }

  /** A SET without a positive duration keeps no expiry. */
  function Deadline(now: int, ttl: int): Expiry { if ttl > 0 then At(now + ttl) else Never }

  datatype Command = SetCell(key: Key, value: string, ttl: int) | DelKeys(keys: seq<Key>)

  function Elements(keys: seq<Key>): set<Key> { set k | k in keys }

  function Run(db: Db, now: int, c: Command): Db {
    match c
    case SetCell(k, v, ttl) => db[k := Cell(v, Deadline(now, ttl))]
    case DelKeys(keys) => db - Elements(keys)
  }

  function RunAll(db: Db, now: int, cs: seq<Command>): Db
    decreases cs
  {
    if cs == [] then db else RunAll(Run(db, now, cs[0]), now, cs[1..])
  }

  lemma RunTwo(db: Db, now: int, a: Command, b: Command)
    ensures RunAll(db, now, [a, b]) == Run(Run(db, now, a), now, b)
    ensures RunAll(db, now, [a]) == Run(db, now, a)
  {
    assert [a, b][1..] == [b] && [b][1..] == [] && [a][1..] == [];
    var after := Run(db, now, a);
    assert RunAll(after, now, [b]) == Run(after, now, b);
  }

  datatype Reply<+T> = Nil | Value(v: T) | Failed

  class Client {
    var db: Db
    var now: int
    /** SCAN: the keys the running iteration still owes, and how many further calls it may take. */
    var owed: set<Key>
    var rounds: nat
    /** How many commands have failed. */
    ghost var faults: nat

    constructor (db: Db, now: int)
      ensures this.db == db && this.now == now
    {
      this.db := db;
      this.now := now;
      owed, rounds, faults := {}, 0, 0;
    }

    method Tick()
      modifies this`now
      ensures now >= old(now)
    {
      var later: int := *;
      if later > now {
        now := later;
      }
    }

    method Get(k: Key) returns (r: Reply<string>)
      modifies this`now, this`faults
      ensures now >= old(now)
      ensures faults == old(faults) + if r.Failed? then 1 else 0
      ensures r.Failed? || r == if Live(db, now, k) then Value(db[k].value) else Nil
    {
      Tick();
      var fails: bool := *;
      if fails {
        faults := faults + 1;
      }
      r := if fails then Failed else if Live(db, now, k) then Value(db[k].value) else Nil;
    }

    method StrLen(k: Key) returns (r: Reply<nat>)
      modifies this`now, this`faults
      ensures now >= old(now)
      ensures faults == old(faults) + if r.Failed? then 1 else 0
      ensures r.Failed? || r == Value(if Live(db, now, k) then |db[k].value| else 0)
    {
      Tick();
      var fails: bool := *;
      if fails {
        faults := faults + 1;
      }
      r := if fails then Failed else Value(if Live(db, now, k) then |db[k].value| else 0);
    }

    method Exec(cs: seq<Command>) returns (ok: bool)
      modifies this`now, this`db, this`faults
      ensures now >= old(now) && faults == old(faults) + if ok then 0 else 1
      ensures db == RunAll(old(db), now, cs) || (!ok && db == old(db))
    {
      Tick();
      ok := *;
      var lost: bool := *;
      if !ok {
        faults := faults + 1;
      }
      if ok || lost {
        db := RunAll(db, now, cs);
      }
    }

    /** A full iteration starts at cursor 0 and ends when the returned cursor is 0. It returns only live keys
        that match, in any order and number, and every key that is there from its start to its end. */
    method Scan(cursor: nat, prefix: string) returns (keys: seq<Key>, next: nat, ok: bool)
      modifies this`now, this`owed, this`rounds, this`faults
      ensures now >= old(now) && faults == old(faults) + if ok then 0 else 1
      ensures !ok ==> keys == [] && owed == old(owed) && rounds == old(rounds)
      ensures forall k | k in keys :: prefix <= k && Live(db, now, k)
      ensures ok ==> owed == (if cursor == 0 then set k | k in db && prefix <= k else old(owed)) - Elements(keys)
      ensures ok && next == 0 ==> forall k | k in owed && prefix <= k :: !Live(db, now, k)
      ensures ok && next != 0 && cursor != 0 ==> rounds < old(rounds)
    {
      Tick();
      keys, next, ok := [], 0, *;
      if !ok {
        faults := faults + 1;
        return;
      }
      if cursor == 0 {
        owed := set k | k in db && prefix <= k;
        rounds := *;
      }
      keys := *;
      var matching := set k | k in db && prefix <= k && Live(db, now, k);
      if rounds == 0 || exists k :: k in keys && k !in matching {
        keys := *;
        if !(forall k | k in matching :: k in keys) || !(forall k | k in keys :: k in matching) {
          keys := ListOf(matching);
        }
      } else {
        next := *;
        if next == 0 {
          next := 1;
        }
        rounds := rounds - 1;
      }
      owed := owed - Elements(keys);
    }
  }

  method ListOf(s: set<Key>) returns (keys: seq<Key>)
    ensures forall k :: k in keys <==> k in s
  {
    keys := [];
    var rest := s;
    while rest != {}
      invariant forall k :: k in s <==> k in rest || k in keys
      decreases |rest|
    {
      var k :| k in rest;
      rest := rest - {k};
      keys := keys + [k];
    }
  }
}
