/**
 Ingest progress by token, kept in memory and in one file per token, both pruned on every call. One
 process that may restart: the memory is lost, the files stay.
*/
module ProgressStore {
  import opened Wrappers

  const TTL := 900.0

  datatype Progress = Progress(stage: string, message: string, current: int, total: int, done: bool, ok: bool,
                               workId: string, redirectTo: string)

  datatype Entry = Entry(value: Progress, updatedAt: real)

  // ---- The plain map with expiry

  datatype Event = Put(token: string, value: Progress, at: real) | Read(token: string, at: real) | Restart(at: real)

  predicate Expired(e: Entry, now: real) {
    now - e.updatedAt > TTL
  }

  function Lookup(last: map<string, Entry>, token: string, now: real): Option<Entry> {
    if token != "" && token in last && !Expired(last[token], now) then Some(last[token]) else None
  }

  function Update(last: map<string, Entry>, e: Event): map<string, Entry> {
    if e.Put? && e.token != "" then last[e.token := Entry(e.value, e.at)] else last
  }

  function History(events: seq<Event>): map<string, Entry> {
    if events == [] then map[] else Update(History(events[..|events| - 1]), events[|events| - 1])
  }

  lemma HistoryOneMore(events: seq<Event>, e: Event)
    ensures History(events + [e]) == Update(History(events), e)
  {
    assert (events + [e])[..|events|] == events;
  }

  /** The events happen one after the other, none before the start. */
  ghost predicate InTime(start: real, events: seq<Event>) {
    && (forall i :: 0 <= i < |events| ==> start <= events[i].at)
    && (forall i, j :: 0 <= i < j < |events| ==> events[i].at <= events[j].at)
  }

  predicate IsPut(events: seq<Event>, i: nat, token: string)
    requires i < |events|
  {
    events[i].Put? && events[i].token == token
  }

  ghost predicate NoPutAfter(events: seq<Event>, i: nat, token: string) {
    forall j :: i < j < |events| ==> !IsPut(events, j, token)
  }

  lemma UpdateOther(last: map<string, Entry>, e: Event, token: string)
    requires !(e.Put? && e.token == token)
    ensures token in Update(last, e) <==> token in last
    ensures token in last ==> Update(last, e)[token] == last[token]
  {
  }

  lemma NoPutAfterFront(events: seq<Event>, i: nat, token: string)
    requires i < |events| - 1
    requires !IsPut(events, |events| - 1, token)
    ensures NoPutAfter(events, i, token) <==> NoPutAfter(events[..|events| - 1], i, token)
  {
    var front := events[..|events| - 1];
    forall j | 0 <= j < |front| ensures IsPut(front, j, token) <==> IsPut(events, j, token) {
      assert front[j] == events[j];
    }
    if NoPutAfter(front, i, token) {
      forall j | i < j < |events| ensures !IsPut(events, j, token) {
        assert j < |front| ==> !IsPut(front, j, token);
      }
    }
  }

  /** What the map holds under a token is the last value put there. */
  lemma {:induction false} HistoryOfToken(events: seq<Event>, token: string) returns (i: nat)
    requires token != ""
    ensures token in History(events) ==>
      var held := History(events)[token];
      i < |events| && events[i] == Put(token, held.value, held.updatedAt) && NoPutAfter(events, i, token)
    ensures token !in History(events) ==> forall j :: 0 <= j < |events| ==> !IsPut(events, j, token)
  {
    i := 0;
    if events != [] {
      var n := |events| - 1;
      var front := events[..n];
      var k := HistoryOfToken(front, token);
      assert forall j :: 0 <= j < n ==> front[j] == events[j];
      if IsPut(events, n, token) {
        i := n;
      } else {
        i := k;
        hide Update;
        assert History(events) == Update(History(front), events[n]);
        UpdateOther(History(front), events[n], token);
        if token in History(front) {
          NoPutAfterFront(events, i, token);
        } else {
          forall j | 0 <= j < |events| ensures !IsPut(events, j, token) {
            assert j < n ==> !IsPut(front, j, token);
          }
        }
      }
    }
  }

  lemma OneLastPut(events: seq<Event>, i: nat, k: nat, token: string)
    requires i < |events| && IsPut(events, i, token) && NoPutAfter(events, i, token)
    requires k < |events| && IsPut(events, k, token) && NoPutAfter(events, k, token)
    ensures i == k
  {
    hide IsPut;
  }

  /** The map answers with the last value put under the token, if it is no older than the limit. */
  lemma LookupIsLastPut(events: seq<Event>, token: string, now: real)
    requires token != ""
    ensures match Lookup(History(events), token, now)
      case Some(e) => exists i :: 0 <= i < |events| && events[i] == Put(token, e.value, e.updatedAt)
                                  && now - e.updatedAt <= TTL && NoPutAfter(events, i, token)
      case None => forall i :: 0 <= i < |events| && IsPut(events, i, token) && NoPutAfter(events, i, token)
                               ==> now - events[i].at > TTL
  {
    var k := HistoryOfToken(events, token);
    hide History;
    if token in History(events) {
      forall i | 0 <= i < |events| && IsPut(events, i, token) && NoPutAfter(events, i, token) ensures i == k {
        OneLastPut(events, i, k, token);
      }
    }
  }

  // ---- Memory and files

  /** Whatever a level holds is the last value put, and the files hold at least everything not yet expired. */
  ghost predicate Sound(memory: map<string, Entry>, files: map<string, Entry>, last: map<string, Entry>, clock: real) {
    && (forall k :: k in memory ==> k in last && memory[k] == last[k])
    && (forall k :: k in files ==> k in last && files[k] == last[k])
    && (forall k :: k in last ==> last[k].updatedAt <= clock && (Expired(last[k], clock) || k in files))
  }

  class Store {
    var memory: map<string, Entry>
    var files: map<string, Entry>
    ghost var last: map<string, Entry>
    ghost var clock: real

    ghost predicate Valid()
      reads this
    {
      Sound(memory, files, last, clock)
    }

    constructor (start: real)
      ensures Valid() && last == map[] && clock == start
    {
      memory, files, last, clock := map[], map[], map[], start;
    }

    /** `_prune_stale`. */
    method PruneMemory(now: real)
      requires Valid() && clock <= now
      modifies `memory
      ensures Valid() && forall k :: k in memory <==> k in old(memory) && !Expired(old(memory)[k], now)
    {
      memory := map k | k in memory && !Expired(memory[k], now) :: memory[k];
    }

    /** `_prune_stale_files`; a file that cannot be unlinked stays. */
    method PruneFiles(now: real)
      requires Valid() && clock <= now
      modifies `files
      ensures Sound(memory, files, last, now)
      ensures files.Keys <= old(files).Keys
      ensures forall k :: k in old(files) && !Expired(old(files)[k], now) ==> k in files
    {
      var stale := set k | k in files && files[k].updatedAt < now - TTL;
      var stuck: set<string> :| stuck <= stale;
      files := files - (stale - stuck);
    }

    /** `set_progress`. */
    method SetProgress(token: string, value: Progress, now: real)
      requires Valid() && clock <= now
      modifies this
      ensures Valid() && last == Update(old(last), Put(token, value, now)) && clock <= now
    {
      if token == "" {
        return;
      }
      PruneMemory(now);
      PruneFiles(now);
      memory := memory[token := Entry(value, now)];
      files := files[token := Entry(value, now)];
      last := last[token := Entry(value, now)];
      clock := now;
    }

    /** `get_progress`: it answers as the plain map with expiry does. */
    method GetProgress(token: string, now: real) returns (found: Option<Entry>)
      requires Valid() && clock <= now
      modifies this
      ensures Valid() && last == old(last) && found == Lookup(last, token, now) && clock <= now
    {
      if token == "" {
        return None;
      }
      PruneMemory(now);
      PruneFiles(now);
      clock := now;
      if token in memory {
        found := Some(memory[token]);
      } else if token !in files || Expired(files[token], now) {
        found := None;
      } else {
        found := Some(files[token]);
        memory := memory[token := files[token]];
      }
    }

    /** The process ends and another starts. */
    method Reboot()
      requires Valid()
      modifies `memory
      ensures Valid() && memory == map[]
    {
      memory := map[];
    }

    /** One event; only a read has an answer. */
    method Do(e: Event) returns (answer: Option<Entry>)
      requires Valid() && clock <= e.at
      modifies this
      ensures Valid() && last == Update(old(last), e) && clock <= e.at
      ensures e.Read? ==> answer == Lookup(old(last), e.token, e.at)
    {
      hide Sound, Expired;
      answer := None;
      match e {
        case Put(token, value, at) => SetProgress(token, value, at);
        case Read(token, at) => answer := GetProgress(token, at);
        case Restart(_) => Reboot();
      }
    }

    /** A whole run from a new store: every read answers from the puts before it, whatever was lost on the way. */
    method Run(events: seq<Event>) returns (answers: seq<Option<Entry>>)
      requires Valid() && last == map[] && InTime(clock, events)
      modifies this
      ensures Valid() && last == History(events) && |answers| == |events|
      ensures forall i :: 0 <= i < |events| && events[i].Read? ==>
                answers[i] == Lookup(History(events[..i]), events[i].token, events[i].at)
    {
      hide Sound, Lookup, Update;
      answers := [];
      for i := 0 to |events|
        invariant Valid() && last == History(events[..i]) && |answers| == i
        invariant forall j :: i <= j < |events| ==> clock <= events[j].at
        invariant forall j :: 0 <= j < i && events[j].Read? ==>
                    answers[j] == Lookup(History(events[..j]), events[j].token, events[j].at)
      {
        assert events[..i + 1] == events[..i] + [events[i]];
        HistoryOneMore(events[..i], events[i]);
        var answer := Do(events[i]);
        answers := answers + [answer];
      }
      assert events[..|events|] == events;
    }
  }
}
