/**
 The pool of media uploads of a CBZ import. Uploads finish in any order and any of them may fail; the
 database is written only after the whole pool has been awaited.
*/
module UploadPool {
  import opened Wrappers

  /** A submitted upload, numbered in order of submission. */
  datatype Upload = Upload(id: nat, key: string)

  datatype PageKeys = PageKeys(image: string, thumb: string)

  function Keys(uploads: set<Upload>): set<string> {
    set u | u in uploads :: u.key
  }

  ghost function RowKeys(rows: seq<PageKeys>): set<string> {
    (set i | 0 <= i < |rows| :: rows[i].image) + (set i | 0 <= i < |rows| :: rows[i].thumb)
  }

  lemma RowKeysAppend(rows: seq<PageKeys>, row: PageKeys)
    ensures RowKeys(rows + [row]) == RowKeys(rows) + {row.image, row.thumb}
  {
    var longer := rows + [row];
    assert longer[|rows|] == row;
    forall i | 0 <= i < |rows| ensures longer[i].image in RowKeys(longer) && longer[i].thumb in RowKeys(longer) {
    }
    forall k | k in RowKeys(rows) ensures k in RowKeys(longer) {
      var i :| 0 <= i < |rows| && (rows[i].image == k || rows[i].thumb == k);
      assert longer[i] == rows[i];
    }
  }

  lemma SmallerWithout(pending: set<Upload>, done: set<Upload>)
    requires done != {} && done <= pending
    ensures |pending - done| < |pending|
  {
    assert pending == (pending - done) + done;
  }

  lemma KeysSplit(pending: set<Upload>, done: set<Upload>, fails: nat -> bool)
    requires done <= pending && forall u :: u in done ==> !fails(u.id)
    ensures Keys(pending) <= Keys(set u | u in done && !fails(u.id)) + Keys(pending - done)
  {
    var over := set u | u in done && !fails(u.id);
    forall k | k in Keys(pending) ensures k in Keys(over) + Keys(pending - done) {
      var u :| u in pending && u.key == k;
      assert u in over || u in pending - done;
    }
  }

  lemma KeysAdd(pending: set<Upload>, u: Upload)
    ensures Keys(pending + {u}) == Keys(pending) + {u.key}
  {
  }

  class Pool {
    const workers: nat
    /** Which uploads fail: nothing is known about it. */
    const fails: nat -> bool

    var pending: set<Upload>
    var submitted: nat

    /** The keys handed in so far, and those whose upload has succeeded. */
    ghost var requested: set<string>
    ghost var stored: set<string>

    constructor (workers: nat, fails: nat -> bool)
      ensures Valid() && Calm() && submitted == 0 && requested == {} && this.workers == workers && this.fails == fails
    {
      this.workers, this.fails, pending, submitted, requested, stored := workers, fails, {}, 0, {}, {};
    }

    function MaxPending(): nat {
      if workers * 4 > 8 then workers * 4 else 8
    }

    /** Every key handed in is stored or on its way; the pool is below its bound. */
    ghost predicate Valid()
      reads this
    {
      && requested <= stored + Keys(pending)
      && |pending| < MaxPending()
      && (forall u :: u in pending ==> u.id < submitted)
    }

    /** No failure has been seen: the uploads not pending any more have all succeeded. */
    ghost predicate Calm()
      reads this
    {
      forall id :: 0 <= id < submitted && (forall u :: u in pending ==> u.id != id) ==> !fails(id)
    }

    /** `result()` on each finished upload: an error is raised if one of them failed. */
    method Results(done: set<Upload>) returns (ok: bool)
      ensures ok <==> forall u :: u in done ==> !fails(u.id)
    {
      var rest := done;
      while rest != {}
        invariant rest <= done && forall u :: u in done && u !in rest ==> !fails(u.id)
        decreases |rest|
      {
        var u :| u in rest;
        if fails(u.id) {
          return false;
        }
        rest := rest - {u};
      }
      ok := true;
    }

    /** The uploads in `done` are over. */
    ghost method Settle(done: set<Upload>)
      modifies `stored
      ensures stored == old(stored) + Keys(set u | u in done && !fails(u.id))
    {
      stored := stored + Keys(set u | u in done && !fails(u.id));
    }

    /** `_drain_pending_uploads`: at the bound, waits until at least one upload is over, whichever it is. */
    method Drain() returns (ok: bool)
      requires requested <= stored + Keys(pending) && |pending| <= MaxPending()
      requires (forall u :: u in pending ==> u.id < submitted) && Calm()
      modifies `pending, `stored
      ensures ok ==> Valid() && Calm() && (|pending| < 8 || |pending| < workers * 4)
      ensures !ok ==> exists u :: u in old(pending) && fails(u.id)
      ensures |old(pending)| < 8 || |old(pending)| < workers * 4 ==>
                ok && pending == old(pending) && stored == old(stored)
    {
      if |pending| < MaxPending() {
        return true;
      }
      var done: set<Upload> := pending;
      done :| done != {} && done <= pending;
      Settle(done);
      SmallerWithout(pending, done);
      ghost var before := pending;
      pending := pending - done;
      ok := Results(done);
      if ok {
        KeysSplit(before, done, fails);
      }
    }

    /** `_store_content_addressed_media`, with a pool. */
    method Submit(key: string) returns (ok: bool)
      requires Valid() && Calm()
      modifies `pending, `submitted, `requested, `stored
      ensures submitted == old(submitted) + 1 && requested == old(requested) + {key}
      ensures ok ==> Valid() && Calm()
      ensures !ok ==> exists id :: 0 <= id < submitted && fails(id)
    {
      var u := Upload(submitted, key);
      KeysAdd(pending, u);
      pending, submitted, requested := pending + {u}, submitted + 1, requested + {key};
      ok := Drain();
    }

    /** `_store_content_addressed_media`, without one. */
    method PutNow(key: string) returns (ok: bool)
      requires Valid() && Calm()
      modifies `submitted, `requested, `stored
      ensures submitted == old(submitted) + 1 && requested == old(requested) + {key}
      ensures ok ==> Valid() && Calm()
      ensures !ok ==> exists id :: 0 <= id < submitted && fails(id)
    {
      ok := !fails(submitted);
      submitted, requested := submitted + 1, requested + {key};
      if ok {
        stored := stored + {key};
      }
    }

    method StoreMedia(key: string) returns (ok: bool)
      requires Valid() && Calm()
      modifies `pending, `submitted, `requested, `stored
      ensures submitted == old(submitted) + 1 && requested == old(requested) + {key}
      ensures ok ==> Valid() && Calm()
      ensures !ok ==> exists id :: 0 <= id < submitted && fails(id)
    {
      if workers > 1 {
        ok := Submit(key);
      } else {
        ok := PutNow(key);
      }
    }

    /** `_wait_for_pending_uploads`. */
    method WaitForAll() returns (ok: bool)
      requires Valid() && Calm()
      modifies `pending, `stored
      ensures ok ==> pending == {} && requested <= stored && Calm()
      ensures !ok ==> exists id :: 0 <= id < submitted && fails(id)
    {
      if pending == {} {
        return true;
      }
      var done := pending;
      Settle(done);
      ok := Results(done);
      if ok {
        KeysSplit(pending, done, fails);
        pending := {};
      }
    }

    /**
     The page loop of `ingest_cbz` and what follows it: the rows for the database, or nothing when the
     import is aborted. It is aborted exactly when an upload failed, and rows come back only once every
     image and every thumbnail they name is stored.
    */
    method ImportPages(pages: seq<PageKeys>) returns (written: Option<seq<PageKeys>>)
      requires pending == {} && submitted == 0 && requested == {} && stored == {}
      modifies `pending, `submitted, `requested, `stored
      ensures written.Some? <==> forall id :: 0 <= id < 2 * |pages| ==> !fails(id)
      ensures written.Some? ==> written.value == pages && RowKeys(pages) <= stored && pending == {}
    {
      var rows: seq<PageKeys> := [];
      for n := 0 to |pages|
        invariant Valid() && Calm() && submitted == 2 * n
        invariant rows == pages[..n] && requested == RowKeys(rows)
      {
        var ok := StoreMedia(pages[n].image);
        if !ok {
          return None;
        }
        ok := StoreMedia(pages[n].thumb);
        if !ok {
          return None;
        }
        RowKeysAppend(rows, pages[n]);
        rows := rows + [pages[n]];
      }
      var ok := WaitForAll();
      written := if ok then Some(rows) else None;
    }
  }
}
