/** The store behind the reader: what it answers to requests for parts of a file. */
module ObjectStore {
  import opened Bytes
  import opened Numbers
  import opened Options

  /** The store's response to a request for `start..end`; None is an error. */
  type Store = (nat, nat) -> Option<seq<Byte>>

  /** A response of the requested size holds the file's own bytes. */
  ghost predicate Stores(store: Store, file: seq<Byte>) {
    forall start: nat, end: nat :: start <= end <= |file| ==>
      match store(start, end)
      case Some(bytes) => |bytes| == end - start ==> bytes == file[start..end]
      case None => true
  }

  /** Every request inside the file is answered with its own bytes. */
  ghost predicate Reliable(store: Store, file: seq<Byte>) {
    forall start: nat, end: nat :: start <= end <= |file| ==> store(start, end) == Some(file[start..end])
  }

  /** Only responses of the requested size are used. */
  function Read(store: Store, start: nat, end: nat): (r: Result<seq<Byte>>)
    ensures r.Ok? ==> |r.value| == Minus(end, start)
    ensures r.Err? ==> r.error.Io?
  {
    match store(start, end)
    case Some(bytes) => if |bytes| == Minus(end, start) then Ok(bytes) else Err(Io)
    case None => Err(Io)
  }

  /** The bytes `start..end` of what begins at offset `at` of the file. */
  function ReadFrom(store: Store, at: nat, start: nat, end: nat): (r: Result<seq<Byte>>)
    ensures r.Ok? ==> |r.value| == Minus(end, start)
    ensures r.Err? ==> r == Err(Io)
  {
    Read(store, at + start, at + end)
  }

  lemma ReliableReads(store: Store, file: seq<Byte>, start: nat, end: nat)
    requires Reliable(store, file) && start <= end <= |file|
    ensures Read(store, start, end) == Ok(file[start..end])
  {
    assert store(start, end) == Some(file[start..end]);
  }

  lemma ReliableStores(store: Store, file: seq<Byte>)
    ensures Reliable(store, file) ==> Stores(store, file)
  {
  }

  lemma SliceOfSlice(file: seq<Byte>, at: nat, end: nat, a: nat, b: nat)
    requires a <= b <= end - at && at <= end <= |file|
    ensures file[at..end][a..b] == file[at + a..at + b]
  {
    var x, y := file[at..end][a..b], file[at + a..at + b];
    assert |x| == |y|;
    assert forall i :: 0 <= i < |x| ==> x[i] == file[at..end][a + i] == file[at + a + i] == y[i];
  }
}
