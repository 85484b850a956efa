/**
 Fanart rows and the content-addressed blobs they share. An upload stores both blobs before it inserts the
 row; a deletion removes the row and then each blob no other row uses.
*/
module BlobStore {
  import opened Wrappers

  type Bytes = seq<bv8>

  /** `_content_addressed_rel_path`, for AVIF data. */
  function Address(digest: Bytes -> string, data: Bytes): string {
    var d := digest(data);
    "_objects/" + d[..if |d| < 2 then |d| else 2] + "/" + d + ".avif"
  }

  /** The address gives the digest away, whatever the length of digests. */
  lemma AddressIsDigest(digest: Bytes -> string, a: Bytes, b: Bytes)
    ensures Address(digest, a) == Address(digest, b) <==> digest(a) == digest(b)
  {
    var d, e := digest(a), digest(b);
    var p, q := if |d| < 2 then |d| else 2, if |e| < 2 then |e| else 2;
    assert |Address(digest, a)| == 15 + |d| + p && |Address(digest, b)| == 15 + |e| + q;
    assert Address(digest, a)[10 + p..10 + p + |d|] == d;
    assert Address(digest, b)[10 + q..10 + q + |e|] == e;
  }

  /** No two contents have the same digest. */
  ghost predicate Injective(digest: Bytes -> string) {
    forall a, b :: digest(a) == digest(b) ==> a == b
  }

  lemma AddressInjective(digest: Bytes -> string, a: Bytes, b: Bytes)
    requires Injective(digest) && Address(digest, a) == Address(digest, b)
    ensures a == b
  {
    AddressIsDigest(digest, a, b);
  }

  function AsText(data: Bytes): (r: string)
    ensures |r| == |data|
  {
    seq(|data|, i requires 0 <= i < |data| => data[i] as char)
  }

  /** There are such digests, if only the bytes themselves. */
  lemma SomeInjective()
    ensures Injective(AsText)
  {
    forall a: Bytes, b: Bytes | AsText(a) == AsText(b) ensures a == b {
      forall i | 0 <= i < |a| ensures a[i] == b[i] {
        assert a[i] as char == AsText(a)[i] == AsText(b)[i] == b[i] as char;
      }
    }
  }

  // ---- One folder of blobs: the images, or the thumbnails

  /** The name each row uses, and the blobs stored. */
  datatype Folder = Folder(names: map<string, string>, blobs: map<string, Bytes>)

  const EMPTY := Folder(map[], map[])

  function Used(names: map<string, string>): set<string> {
    set i | i in names :: names[i]
  }

  /** The blobs no row uses. */
  function Strays(f: Folder): set<string> {
    f.blobs.Keys - Used(f.names)
  }

  /** Every blob is stored under its own address, and every name in use is stored. */
  ghost predicate FolderOk(digest: Bytes -> string, f: Folder) {
    && (forall n :: n in f.blobs ==> Address(digest, f.blobs[n]) == n)
    && Used(f.names) <= f.blobs.Keys
  }

  /**
   What an upload or a deletion does to one folder. `stored` says whether the put succeeded, `inserted`
   whether the row then went in, and `overwrites` whether a blob that is there already is written again;
   `removed` whether the media service removed what it was asked to.
  */
  datatype Event =
    | Put(id: string, data: Bytes, stored: bool, inserted: bool, overwrites: bool)
    | Drop(id: string, removed: bool)

  predicate Possible(f: Folder, e: Event) {
    e.Put? ==> e.id !in f.names && (e.inserted ==> e.stored)
  }

  /** The blobs after a put under a name. */
  function Written(blobs: map<string, Bytes>, name: string, data: Bytes, stored: bool, overwrites: bool)
    : map<string, Bytes>
  {
    if stored && (overwrites || name !in blobs) then blobs[name := data] else blobs
  }

  function Next(digest: Bytes -> string, f: Folder, e: Event): Folder {
    match e
    case Put(id, data, stored, inserted, overwrites) =>
      var n := Address(digest, data);
      Folder(if inserted then f.names[id := n] else f.names, Written(f.blobs, n, data, stored, overwrites))
    case Drop(id, removed) =>
      if id !in f.names then f
      else
        var left, n := f.names - {id}, f.names[id];
        Folder(left, if n !in Used(left) && removed then f.blobs - {n} else f.blobs)
  }

  /** The event leaves this blob behind: it is stored, and no row uses it. */
  predicate Leaves(digest: Bytes -> string, f: Folder, e: Event, n: string) {
    match e
    case Put(_, data, stored, inserted, _) => n == Address(digest, data) && stored && !inserted && n !in Used(f.names)
    case Drop(id, removed) => id in f.names && n == f.names[id] && !removed && n !in Used(f.names - {id})
  }

  /** A row goes in that uses this blob. */
  predicate Adopts(digest: Bytes -> string, e: Event, n: string) {
    e.Put? && e.inserted && n == Address(digest, e.data)
  }

  lemma UsedPut(names: map<string, string>, id: string, n: string)
    requires id !in names
    ensures Used(names[id := n]) == Used(names) + {n}
  {
    var next := names[id := n];
    assert next[id] == n;
    forall m | m in Used(names) ensures m in Used(next) {
      var i :| i in names && names[i] == m;
      assert next[i] == m;
    }
  }

  lemma UsedDrop(names: map<string, string>, id: string)
    requires id in names
    ensures Used(names - {id}) <= Used(names) <= Used(names - {id}) + {names[id]}
  {
    var next := names - {id};
    forall m | m in Used(names) && m != names[id] ensures m in Used(next) {
      var i :| i in names && names[i] == m;
      assert next[i] == m;
    }
  }

  lemma NextOk(digest: Bytes -> string, f: Folder, e: Event)
    requires FolderOk(digest, f) && Possible(f, e)
    ensures FolderOk(digest, Next(digest, f, e))
  {
    match e
    case Put(id, data, stored, inserted, _) => UsedPut(f.names, id, Address(digest, data));
    case Drop(id, removed) =>
      if id in f.names {
        UsedDrop(f.names, id);
      }
  }

  /** The strays after one event: those before, with what it leaves behind and without what it adopts. */
  lemma StraysNext(digest: Bytes -> string, f: Folder, e: Event, n: string)
    requires FolderOk(digest, f) && Possible(f, e)
    ensures n in Strays(Next(digest, f, e)) <==> Leaves(digest, f, e, n) || (n in Strays(f) && !Adopts(digest, e, n))
  {
    match e
    case Put(id, data, stored, inserted, _) => UsedPut(f.names, id, Address(digest, data));
    case Drop(id, removed) =>
      if id in f.names {
        UsedDrop(f.names, id);
        assert f.names[id] in Used(f.names);
      }
  }

  /** An upload whose row does not go in leaves its blob behind; uploading the same content again adopts it. */
  lemma FailedUploadLeaves(digest: Bytes -> string, id: string, data: Bytes, overwrites: bool)
    ensures var failed := Next(digest, EMPTY, Put(id, data, true, false, overwrites));
            Strays(failed) == {Address(digest, data)}
            && Strays(Next(digest, failed, Put(id, data, true, true, overwrites))) == {}
  {
    hide Address;
    var failed := Next(digest, EMPTY, Put(id, data, true, false, overwrites));
    UsedPut(failed.names, id, Address(digest, data));
  }

  // ---- Whole runs

  ghost predicate AllPossible(digest: Bytes -> string, f: Folder, events: seq<Event>)
    decreases |events|
  {
    events != [] ==> Possible(f, events[0]) && AllPossible(digest, Next(digest, f, events[0]), events[1..])
  }

  function After(digest: Bytes -> string, f: Folder, events: seq<Event>): Folder
    decreases |events|
  {
    if events == [] then f else After(digest, Next(digest, f, events[0]), events[1..])
  }

  /** Some event of the run leaves the blob behind, and no later one adopts it. */
  predicate LeftFor(digest: Bytes -> string, f: Folder, events: seq<Event>, n: string)
    decreases |events|
  {
    events != [] &&
      (|| (Leaves(digest, f, events[0], n) && forall e :: e in events[1..] ==> !Adopts(digest, e, n))
       || LeftFor(digest, Next(digest, f, events[0]), events[1..], n))
  }

  /** Exactly what is left behind and not adopted later is stored without being used. */
  lemma {:induction false} StraysAfter(digest: Bytes -> string, f: Folder, events: seq<Event>, n: string)
    requires FolderOk(digest, f) && AllPossible(digest, f, events)
    ensures FolderOk(digest, After(digest, f, events))
    ensures n in Strays(After(digest, f, events))
      <==> LeftFor(digest, f, events, n) || (n in Strays(f) && forall e :: e in events ==> !Adopts(digest, e, n))
    decreases |events|
  {
    if events != [] {
      NextOk(digest, f, events[0]);
      StraysNext(digest, f, events[0], n);
      StraysAfter(digest, Next(digest, f, events[0]), events[1..], n);
      assert forall e :: e in events <==> e == events[0] || e in events[1..];
      hide Strays, Leaves, Adopts, FolderOk, Next;
    }
  }

  /** From an empty folder: only referenced blobs are stored if and only if everything left behind was adopted later. */
  lemma OnlyReferencedIff(digest: Bytes -> string, events: seq<Event>)
    requires AllPossible(digest, EMPTY, events)
    ensures var f := After(digest, EMPTY, events);
      f.blobs.Keys == Used(f.names) <==> forall n :: !LeftFor(digest, EMPTY, events, n)
  {
    StraysAfter(digest, EMPTY, events, "");
    var f := After(digest, EMPTY, events);
    forall n ensures n in Strays(f) <==> LeftFor(digest, EMPTY, events, n) {
      StraysAfter(digest, EMPTY, events, n);
    }
    hide LeftFor, After, AllPossible;
    if Strays(f) == {} {
      assert forall n :: n in f.blobs.Keys ==> n in Used(f.names) || n in Strays(f);
    } else {
      var n :| n in Strays(f);
      assert LeftFor(digest, EMPTY, events, n);
    }
  }

  lemma {:induction false} AfterOneMore(digest: Bytes -> string, f: Folder, events: seq<Event>, e: Event)
    requires AllPossible(digest, f, events) && Possible(After(digest, f, events), e)
    ensures AllPossible(digest, f, events + [e])
            && After(digest, f, events + [e]) == Next(digest, After(digest, f, events), e)
    decreases |events|
  {
    hide Next, Possible;
    if events == [] {
      assert [e][1..] == [];
    } else {
      assert (events + [e])[1..] == events[1..] + [e];
      AfterOneMore(digest, Next(digest, f, events[0]), events[1..], e);
    }
  }

  /** The folder came about through these events. */
  ghost predicate Traces(digest: Bytes -> string, f: Folder, events: seq<Event>) {
    AllPossible(digest, EMPTY, events) && After(digest, EMPTY, events) == f
  }

  lemma TracesNext(digest: Bytes -> string, f: Folder, events: seq<Event>, e: Event)
    requires Traces(digest, f, events) && Possible(f, e)
    ensures Traces(digest, Next(digest, f, e), events + [e])
  {
    AfterOneMore(digest, EMPTY, events, e);
  }

  // ---- What the rows read

  /** The uploaded bytes of each row, after one more event. */
  function Originals(originals: map<string, Bytes>, e: Event): map<string, Bytes> {
    match e
    case Put(id, data, _, inserted, _) => if inserted then originals[id := data] else originals
    case Drop(id, _) => originals - {id}
  }

  /** Every row leads to a stored blob, and to the bytes it was uploaded with. */
  ghost predicate Reads(f: Folder, originals: map<string, Bytes>) {
    && f.names.Keys == originals.Keys
    && forall i :: i in originals ==> f.names[i] in f.blobs && f.blobs[f.names[i]] == originals[i]
  }

  /**
   The upload meets a blob of other content under its own address, and either leaves it there for its own row to
   read, or writes over it although a row uses it.
  */
  predicate Misreads(digest: Bytes -> string, f: Folder, e: Event) {
    e.Put? && e.stored &&
      var n := Address(digest, e.data);
      n in f.blobs && f.blobs[n] != e.data && (if e.overwrites then n in Used(f.names) else e.inserted)
  }

  lemma UsedHas(names: map<string, string>, i: string)
    requires i in names
    ensures names[i] in Used(names)
  {
  }

  lemma PutReads(digest: Bytes -> string, f: Folder, originals: map<string, Bytes>, e: Event)
    requires e.Put? && Possible(f, e) && Reads(f, originals) && !Misreads(digest, f, e)
    ensures Reads(Next(digest, f, e), Originals(originals, e))
  {
    hide Address, Used;
    forall i | i in originals ensures f.names[i] in Used(f.names) {
      UsedHas(f.names, i);
    }
  }

  lemma DropReads(digest: Bytes -> string, f: Folder, originals: map<string, Bytes>, e: Event)
    requires e.Drop? && Reads(f, originals)
    ensures Reads(Next(digest, f, e), Originals(originals, e))
  {
    hide Used;
    var left := f.names - {e.id};
    forall i | i in left ensures left[i] in Used(left) {
      UsedHas(left, i);
    }
    assert e.id !in f.names ==> originals - {e.id} == originals;
  }

  /** An event keeps every row readable exactly if it is no such upload. */
  lemma ReadsNext(digest: Bytes -> string, f: Folder, originals: map<string, Bytes>, e: Event)
    requires Possible(f, e) && Reads(f, originals)
    ensures Reads(Next(digest, f, e), Originals(originals, e)) <==> !Misreads(digest, f, e)
  {
    if Misreads(digest, f, e) {
      hide Address;
      var next := Next(digest, f, e);
      if e.overwrites {
        var i :| i in f.names && f.names[i] == Address(digest, e.data);
        assert next.blobs[next.names[i]] == e.data != originals[i];
      } else {
        assert next.blobs[next.names[e.id]] != e.data;
      }
    } else if e.Put? {
      PutReads(digest, f, originals, e);
    } else {
      DropReads(digest, f, originals, e);
    }
  }

  /** No event of the run is such an upload. */
  predicate Clear(digest: Bytes -> string, f: Folder, events: seq<Event>)
    decreases |events|
  {
    events != [] ==> !Misreads(digest, f, events[0]) && Clear(digest, Next(digest, f, events[0]), events[1..])
  }

  function OriginalsAfter(originals: map<string, Bytes>, events: seq<Event>): map<string, Bytes>
    decreases |events|
  {
    if events == [] then originals else OriginalsAfter(Originals(originals, events[0]), events[1..])
  }

  /** Every row is readable before, between and after the events. */
  ghost predicate ReadsThroughout(digest: Bytes -> string, f: Folder, originals: map<string, Bytes>, events: seq<Event>)
    decreases |events|
  {
    Reads(f, originals)
    && (events != [] ==>
          ReadsThroughout(digest, Next(digest, f, events[0]), Originals(originals, events[0]), events[1..]))
  }

  /** Over a run every row is readable throughout if and only if no upload is of that kind. */
  lemma {:induction false} ReadsThroughoutIff(digest: Bytes -> string, f: Folder, originals: map<string, Bytes>,
                                              events: seq<Event>)
    requires AllPossible(digest, f, events) && Reads(f, originals)
    ensures ReadsThroughout(digest, f, originals, events) <==> Clear(digest, f, events)
    ensures Clear(digest, f, events) ==> Reads(After(digest, f, events), OriginalsAfter(originals, events))
    decreases |events|
  {
    hide Reads, Misreads, Possible, Next, Originals;
    if events != [] {
      ReadsNext(digest, f, originals, events[0]);
      if !Misreads(digest, f, events[0]) {
        ReadsThroughoutIff(digest, Next(digest, f, events[0]), Originals(originals, events[0]), events[1..]);
      }
    }
  }

  /** With an injective digest there is no such upload. */
  lemma {:induction false} InjectiveClear(digest: Bytes -> string, f: Folder, events: seq<Event>)
    requires Injective(digest) && FolderOk(digest, f) && AllPossible(digest, f, events)
    ensures Clear(digest, f, events)
    decreases |events|
  {
    if events != [] {
      NextOk(digest, f, events[0]);
      InjectiveClear(digest, Next(digest, f, events[0]), events[1..]);
      hide Address, Injective, Next;
      if events[0].Put? && Address(digest, events[0].data) in f.blobs {
        AddressInjective(digest, f.blobs[Address(digest, events[0].data)], events[0].data);
      }
    }
  }

  lemma {:induction false} OriginalsOneMore(originals: map<string, Bytes>, events: seq<Event>, e: Event)
    ensures OriginalsAfter(originals, events + [e]) == Originals(OriginalsAfter(originals, events), e)
    decreases |events|
  {
    hide Originals;
    if events == [] {
      assert [e][1..] == [];
    } else {
      assert (events + [e])[1..] == events[1..] + [e];
      OriginalsOneMore(Originals(originals, events[0]), events[1..], e);
    }
  }

  // ---- The rows and both folders

  datatype Item = Item(image: string, thumb: Option<string>)

  function ImageNames(items: map<string, Item>): map<string, string> {
    map i | i in items :: items[i].image
  }

  function ThumbNames(items: map<string, Item>): map<string, string> {
    map i | i in items && items[i].thumb.Some? :: items[i].thumb.value
  }

  /** What an item was uploaded with. */
  datatype Original = Original(image: Bytes, thumb: Bytes)

  ghost predicate Faithful(digest: Bytes -> string, items: map<string, Item>, originals: map<string, Original>) {
    items.Keys == originals.Keys
    && forall i :: i in items ==>
         items[i] == Item(Address(digest, originals[i].image), Some(Address(digest, originals[i].thumb)))
  }

  lemma NamesPut(items: map<string, Item>, id: string, item: Item)
    requires item.thumb.Some?
    ensures ImageNames(items[id := item]) == ImageNames(items)[id := item.image]
    ensures ThumbNames(items[id := item]) == ThumbNames(items)[id := item.thumb.value]
  {
  }

  lemma NamesDrop(items: map<string, Item>, id: string)
    ensures ImageNames(items - {id}) == ImageNames(items) - {id} && ThumbNames(items - {id}) == ThumbNames(items) - {id}
  {
  }

  /** The rows name what was uploaded, and each folder has every blob they name. */
  ghost predicate StoreOk(digest: Bytes -> string, items: map<string, Item>, originals: map<string, Original>,
                          images: map<string, Bytes>, thumbs: map<string, Bytes>)
  {
    && Faithful(digest, items, originals)
    && FolderOk(digest, Folder(ImageNames(items), images)) && FolderOk(digest, Folder(ThumbNames(items), thumbs))
  }

  lemma FaithfulPut(digest: Bytes -> string, items: map<string, Item>, originals: map<string, Original>, id: string,
                    o: Original)
    requires Faithful(digest, items, originals)
    ensures Faithful(digest, items[id := Item(Address(digest, o.image), Some(Address(digest, o.thumb)))],
                     originals[id := o])
  {
    hide Address;
  }

  lemma FaithfulDrop(digest: Bytes -> string, items: map<string, Item>, originals: map<string, Original>, id: string)
    requires Faithful(digest, items, originals)
    ensures Faithful(digest, items - {id}, originals - {id})
  {
    hide Address;
  }

  lemma NewNames(items: map<string, Item>, id: string)
    requires id !in items
    ensures id !in ImageNames(items) && id !in ThumbNames(items)
  {
  }

  /** The two folders after an upload that inserted its row, or did not. */
  lemma UploadKeeps(digest: Bytes -> string, items: map<string, Item>, originals: map<string, Original>,
                    images: map<string, Bytes>, thumbs: map<string, Bytes>, id: string, o: Original, imageOk: bool,
                    thumbOk: bool, ok: bool, overwrites: bool)
    requires StoreOk(digest, items, originals, images, thumbs) && id !in items && (ok ==> imageOk && thumbOk)
    ensures var i, t := Address(digest, o.image), Address(digest, o.thumb);
            var items' := if ok then items[id := Item(i, Some(t))] else items;
            var originals' := if ok then originals[id := o] else originals;
            var images' := Written(images, i, o.image, imageOk, overwrites);
            var thumbs' := Written(thumbs, t, o.thumb, thumbOk, overwrites);
            && StoreOk(digest, items', originals', images', thumbs')
            && Folder(ImageNames(items'), images')
               == Next(digest, Folder(ImageNames(items), images), Put(id, o.image, imageOk, ok, overwrites))
            && Folder(ThumbNames(items'), thumbs')
               == Next(digest, Folder(ThumbNames(items), thumbs), Put(id, o.thumb, thumbOk, ok, overwrites))
  {
    NextOk(digest, Folder(ImageNames(items), images), Put(id, o.image, imageOk, ok, overwrites));
    NextOk(digest, Folder(ThumbNames(items), thumbs), Put(id, o.thumb, thumbOk, ok, overwrites));
    NamesPut(items, id, Item(Address(digest, o.image), Some(Address(digest, o.thumb))));
    FaithfulPut(digest, items, originals, id, o);
    hide Address, ImageNames, ThumbNames, Faithful, FolderOk, Written;
  }

  /** Both folders' histories after an upload. */
  lemma UploadTraces(digest: Bytes -> string, items: map<string, Item>, images: map<string, Bytes>,
                     thumbs: map<string, Bytes>, imageEvents: seq<Event>, thumbEvents: seq<Event>, put: Event,
                     putThumb: Event)
    requires Traces(digest, Folder(ImageNames(items), images), imageEvents)
    requires Traces(digest, Folder(ThumbNames(items), thumbs), thumbEvents)
    requires put.Put? && putThumb.Put? && put.id == putThumb.id && put.id !in items
    requires put.inserted ==> put.stored
    requires putThumb.inserted ==> putThumb.stored
    ensures Traces(digest, Next(digest, Folder(ImageNames(items), images), put), imageEvents + [put])
    ensures Traces(digest, Next(digest, Folder(ThumbNames(items), thumbs), putThumb), thumbEvents + [putThumb])
  {
    NewNames(items, put.id);
    hide Traces, Next, ImageNames, ThumbNames;
    TracesNext(digest, Folder(ImageNames(items), images), imageEvents, put);
    TracesNext(digest, Folder(ThumbNames(items), thumbs), thumbEvents, putThumb);
  }

  lemma DropNames(digest: Bytes -> string, f: Folder, id: string, removed: bool)
    requires FolderOk(digest, f)
    ensures FolderOk(digest, Next(digest, f, Drop(id, removed)))
            && Next(digest, f, Drop(id, removed)).names == f.names - {id}
  {
    NextOk(digest, f, Drop(id, removed));
    assert id !in f.names ==> f.names - {id} == f.names;
    hide FolderOk, Used;
  }

  lemma DeleteKeeps(digest: Bytes -> string, items: map<string, Item>, originals: map<string, Original>,
                    images: map<string, Bytes>, thumbs: map<string, Bytes>, id: string, imageOk: bool, thumbOk: bool)
    requires StoreOk(digest, items, originals, images, thumbs)
    ensures var imageFolder := Next(digest, Folder(ImageNames(items), images), Drop(id, imageOk));
            var thumbFolder := Next(digest, Folder(ThumbNames(items), thumbs), Drop(id, thumbOk));
            && StoreOk(digest, items - {id}, originals - {id}, imageFolder.blobs, thumbFolder.blobs)
            && ImageNames(items - {id}) == imageFolder.names && ThumbNames(items - {id}) == thumbFolder.names
  {
    hide Next, ImageNames, ThumbNames, Faithful, FolderOk;
    DropNames(digest, Folder(ImageNames(items), images), id, imageOk);
    DropNames(digest, Folder(ThumbNames(items), thumbs), id, thumbOk);
    NamesDrop(items, id);
    FaithfulDrop(digest, items, originals, id);
  }

  function ImageBytes(originals: map<string, Original>): map<string, Bytes> {
    map i | i in originals :: originals[i].image
  }

  function ThumbBytes(originals: map<string, Original>): map<string, Bytes> {
    map i | i in originals :: originals[i].thumb
  }

  /** The uploaded bytes of the items are those the events of both folders tell. */
  ghost predicate Told(originals: map<string, Original>, imageEvents: seq<Event>, thumbEvents: seq<Event>) {
    && ImageBytes(originals) == OriginalsAfter(map[], imageEvents)
    && ThumbBytes(originals) == OriginalsAfter(map[], thumbEvents)
  }

  lemma UploadTold(originals: map<string, Original>, imageEvents: seq<Event>, thumbEvents: seq<Event>, put: Event,
                   putThumb: Event)
    requires Told(originals, imageEvents, thumbEvents) && put.Put? && putThumb.Put?
    requires put.id == putThumb.id && put.inserted == putThumb.inserted
    ensures var o := Original(put.data, putThumb.data);
            Told(if put.inserted then originals[put.id := o] else originals,
                 imageEvents + [put], thumbEvents + [putThumb])
  {
    OriginalsOneMore(map[], imageEvents, put);
    OriginalsOneMore(map[], thumbEvents, putThumb);
    hide OriginalsAfter;
  }

  lemma DeleteTold(originals: map<string, Original>, imageEvents: seq<Event>, thumbEvents: seq<Event>, id: string,
                   imageOk: bool, thumbOk: bool)
    requires Told(originals, imageEvents, thumbEvents)
    ensures Told(originals - {id}, imageEvents + [Drop(id, imageOk)], thumbEvents + [Drop(id, thumbOk)])
  {
    OriginalsOneMore(map[], imageEvents, Drop(id, imageOk));
    OriginalsOneMore(map[], thumbEvents, Drop(id, thumbOk));
    hide OriginalsAfter;
  }

  /** A folder with its whole history reads back what the history tells, if no upload of it misread. */
  lemma TracedReads(digest: Bytes -> string, f: Folder, events: seq<Event>)
    requires Traces(digest, f, events)
    ensures Clear(digest, EMPTY, events) ==> Reads(f, OriginalsAfter(map[], events))
    ensures Injective(digest) ==> Clear(digest, EMPTY, events)
  {
    ReadsThroughoutIff(digest, EMPTY, map[], events);
    if Injective(digest) {
      InjectiveClear(digest, EMPTY, events);
    }
  }

  class FanartStore {
    const digest: Bytes -> string
    var items: map<string, Item>
    var images: map<string, Bytes>
    var thumbs: map<string, Bytes>
    /** The uploaded bytes of each item. */
    ghost var originals: map<string, Original>
    /** Everything that has happened to each folder. */
    ghost var imageEvents: seq<Event>
    ghost var thumbEvents: seq<Event>

    ghost function ImageFolder(): Folder
      reads this
    {
      Folder(ImageNames(items), images)
    }

    ghost function ThumbFolder(): Folder
      reads this
    {
      Folder(ThumbNames(items), thumbs)
    }

    ghost predicate Valid()
      reads this
    {
      && StoreOk(digest, items, originals, images, thumbs)
      && Traces(digest, ImageFolder(), imageEvents) && Traces(digest, ThumbFolder(), thumbEvents)
      && Told(originals, imageEvents, thumbEvents)
    }

    constructor (digest: Bytes -> string)
      ensures Valid() && this.digest == digest && items == map[]
      ensures ImageFolder() == ThumbFolder() == EMPTY && imageEvents == thumbEvents == []
    {
      this.digest := digest;
      items, images, thumbs, originals, imageEvents, thumbEvents := map[], map[], map[], map[], [], [];
    }

    /**
     `_store_content_addressed`: a blob that is there already is left alone, or written again where the check for
     it is skipped; the put may fail.
    */
    method Store(blobs: map<string, Bytes>, data: Bytes, succeeds: bool, skipExistsCheck: bool)
      returns (stored: map<string, Bytes>, name: string)
      ensures name == Address(digest, data) && stored == Written(blobs, name, data, succeeds, skipExistsCheck)
    {
      name := Address(digest, data);
      stored := blobs;
      if succeeds && (skipExistsCheck || name !in blobs) {
        stored := blobs[name := data];
      }
    }

    /**
     `ingest_fanart_image` from the first blob on: both puts, then the row. Any of them may fail; without a
     pool a failed image put ends the upload before the thumbnail is tried. The row goes in exactly if nothing
     failed, and both folders take the step of the event.
    */
    method Upload(id: string, image: Bytes, thumb: Bytes, imageOk: bool, thumbOk: bool, insertOk: bool, pooled: bool,
                  skipExistsCheck: bool)
      returns (ok: bool)
      requires Valid() && id !in items
      modifies this
      ensures Valid() && ok == (imageOk && thumbOk && insertOk)
      ensures imageEvents == old(imageEvents) + [Put(id, image, imageOk, ok, skipExistsCheck)]
      ensures thumbEvents
              == old(thumbEvents) + [Put(id, thumb, thumbOk && (pooled || imageOk), ok, skipExistsCheck)]
      ensures originals == if ok then old(originals)[id := Original(image, thumb)] else old(originals)
      ensures items == if ok then old(items)[id := Item(Address(digest, image), Some(Address(digest, thumb)))]
                       else old(items)
    {
      hide Next, Address, ImageNames, ThumbNames, Traces, StoreOk, Written, Told;
      ok := imageOk && thumbOk && insertOk;
      var thumbStored := thumbOk && (pooled || imageOk);
      var newImages, imageName := Store(images, image, imageOk, skipExistsCheck);
      var newThumbs, thumbName := Store(thumbs, thumb, thumbStored, skipExistsCheck);
      ghost var put := Put(id, image, imageOk, ok, skipExistsCheck);
      ghost var putThumb := Put(id, thumb, thumbStored, ok, skipExistsCheck);
      UploadKeeps(digest, items, originals, images, thumbs, id, Original(image, thumb), imageOk, thumbStored, ok,
                  skipExistsCheck);
      UploadTraces(digest, items, images, thumbs, imageEvents, thumbEvents, put, putThumb);
      UploadTold(originals, imageEvents, thumbEvents, put, putThumb);
      images, thumbs := newImages, newThumbs;
      if ok {
        items := items[id := Item(imageName, Some(thumbName))];
        originals := originals[id := Original(image, thumb)];
      }
      imageEvents, thumbEvents := imageEvents + [put], thumbEvents + [putThumb];
    }

    /** Removes the blob of a row from its folder unless another row uses it; a removal that fails is ignored. */
    method RemoveUnused(f: Folder, id: string, succeeds: bool) returns (blobs: map<string, Bytes>)
      ensures blobs == Next(digest, f, Drop(id, succeeds)).blobs
    {
      hide Used;
      blobs := f.blobs;
      if id in f.names && f.names[id] !in Used(f.names - {id}) && succeeds {
        blobs := blobs - {f.names[id]};
      }
    }

    /** `delete_fanart_item`: the row, then the image and the thumbnail unless another row uses them. */
    method Delete(id: string, imageOk: bool, thumbOk: bool) returns (deleted: bool)
      requires Valid()
      modifies this
      ensures Valid() && deleted == (id in old(items)) && items == old(items) - {id}
              && originals == old(originals) - {id}
      ensures imageEvents == old(imageEvents) + [Drop(id, imageOk)]
              && thumbEvents == old(thumbEvents) + [Drop(id, thumbOk)]
    {
      hide StoreOk, Traces, Next, ImageNames, ThumbNames, Told;
      DeleteTold(originals, imageEvents, thumbEvents, id, imageOk, thumbOk);
      DeleteKeeps(digest, items, originals, images, thumbs, id, imageOk, thumbOk);
      TracesNext(digest, ImageFolder(), imageEvents, Drop(id, imageOk));
      TracesNext(digest, ThumbFolder(), thumbEvents, Drop(id, thumbOk));
      deleted := id in items;
      var newImages := RemoveUnused(Folder(ImageNames(items), images), id, imageOk);
      var newThumbs := RemoveUnused(Folder(ThumbNames(items), thumbs), id, thumbOk);
      images, thumbs := newImages, newThumbs;
      items, originals := items - {id}, originals - {id};
      imageEvents, thumbEvents := imageEvents + [Drop(id, imageOk)], thumbEvents + [Drop(id, thumbOk)];
    }

    /** Only referenced blobs are stored if and only if everything ever left behind was adopted by a later upload. */
    lemma OnlyReferenced()
      requires Valid()
      ensures images.Keys == Used(ImageNames(items)) <==> forall n :: !LeftFor(digest, EMPTY, imageEvents, n)
      ensures thumbs.Keys == Used(ThumbNames(items)) <==> forall n :: !LeftFor(digest, EMPTY, thumbEvents, n)
    {
      OnlyReferencedIff(digest, imageEvents);
      OnlyReferencedIff(digest, thumbEvents);
      hide LeftFor, Used, ImageNames, ThumbNames;
    }

    /**
     A row's image and thumbnail are always stored. They are the bytes it was uploaded with as long as no upload met
     other content under its own address, which under an injective digest none does.
    */
    lemma RowsReadBack(id: string)
      requires Valid() && id in items
      ensures items[id].image in images && items[id].thumb.Some? && items[id].thumb.value in thumbs
      ensures Clear(digest, EMPTY, imageEvents) ==> images[items[id].image] == originals[id].image
      ensures Clear(digest, EMPTY, thumbEvents) ==> thumbs[items[id].thumb.value] == originals[id].thumb
      ensures Injective(digest) ==> Clear(digest, EMPTY, imageEvents) && Clear(digest, EMPTY, thumbEvents)
    {
      TracedReads(digest, ImageFolder(), imageEvents);
      TracedReads(digest, ThumbFolder(), thumbEvents);
      hide Traces, Clear, Injective, OriginalsAfter, Address;
      UsedHas(ImageNames(items), id);
      UsedHas(ThumbNames(items), id);
      assert id in ImageBytes(originals) && id in ThumbBytes(originals);
    }
  }
}
