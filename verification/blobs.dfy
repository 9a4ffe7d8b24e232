/** Byte buffers behind an array: `blob_t<T>` owns a vector of `T`,
    `blob_t<bool>` owns a vector of bytes, and `ptr_blob_t` borrows memory
    it cannot resize. Contents are kept as the bytes `ptr()` exposes. */
module Blobs {
  import opened Wrappers
  import opened BigEndian

  datatype Blob =
    | Owned(elemSize: nat, bytes: seq<byte>)  // blob_t<T>, elemSize == sizeof(T)
    | OwnedBool(bytes: seq<byte>)             // blob_t<bool>
    | Borrowed(bytes: seq<byte>)              // ptr_blob_t over the viewed memory

  datatype BlobError =
    | Misaligned     // a byte count that is not a whole number of elements
    | NotResizable   // resize or reserve on borrowed memory
    | NullPointer    // ptr_blob_t over a null pointer

  /** An owned typed blob holds whole elements. */
  predicate Valid(b: Blob) {
    b.Owned? ==> b.elemSize >= 1 && |b.bytes| % b.elemSize == 0
  }

  /** `nbytes()`. */
  function NBytes(b: Blob): nat {
    |b.bytes|
  }

  /** The vector's contents after `resize` to `n` bytes: truncated, or
      extended with value-initialised (zero) elements. */
  function Fit(bytes: seq<byte>, n: nat): (r: seq<byte>)
    ensures |r| == n
    ensures forall i :: 0 <= i < n && i < |bytes| ==> r[i] == bytes[i]
    ensures forall i :: |bytes| <= i < n ==> r[i] == 0
  {
    if n <= |bytes| then bytes[..n] else bytes + Zeros(n - |bytes|)
  }

  /** `ptr_blob_t(void *data, size_t size)`: a borrowed view of `view`,
      refused when the pointer is null (address 0). */
  function FromPointer(address: nat, view: seq<byte>): (r: Result<Blob, BlobError>)
    ensures r.Success? <==> address != 0
    ensures r.Success? ==> r.value.Borrowed? && NBytes(r.value) == |view| && Valid(r.value)
  {
    if address == 0 then Failure(NullPointer) else Success(Borrowed(view))
  }

  /** `ptr_blob_t(vector<T> &)`: a borrowed view of a vector's elements.
      Unlike the pointer constructor it does not check the pointer, so it
      also accepts an empty vector. */
  function FromVector(elements: seq<byte>): (r: Blob)
    ensures r.Borrowed? && NBytes(r) == |elements| && r.bytes == elements && Valid(r)
  {
    Borrowed(elements)
  }

  /** Neither way of borrowing memory gives a blob that can be resized or
      reserved: every borrowed view keeps its size. */
  lemma BorrowedKeepsSize(address: nat, view: seq<byte>, n: nat)
    ensures FromPointer(address, view).Success? ==>
              && Resize(FromPointer(address, view).value, n) == Failure(NotResizable)
              && Reserve(FromPointer(address, view).value, n) == Failure(NotResizable)
    ensures Resize(FromVector(view), n) == Failure(NotResizable)
    ensures Reserve(FromVector(view), n) == Failure(NotResizable)
  {
  }

  /** `resize(n)`. */
  function Resize(b: Blob, n: nat): (r: Result<Blob, BlobError>)
    requires Valid(b)
    ensures b.Borrowed? ==> r == Failure(NotResizable)
    ensures b.Owned? ==> (r.Success? <==> n % b.elemSize == 0)
    ensures b.OwnedBool? ==> r.Success?
    ensures r.Success? ==> Valid(r.value) && NBytes(r.value) == n
    ensures r.Success? ==> r.value.Owned? == b.Owned? && r.value.OwnedBool? == b.OwnedBool?
    ensures r.Success? ==> forall i :: 0 <= i < n && i < NBytes(b) ==> r.value.bytes[i] == b.bytes[i]
    ensures r.Success? ==> forall i :: NBytes(b) <= i < n ==> r.value.bytes[i] == 0
  {
    match b
    case Owned(size, bytes) =>
      if n % size != 0 then Failure(Misaligned) else Success(Owned(size, Fit(bytes, n)))
    case OwnedBool(bytes) => Success(OwnedBool(Fit(bytes, n)))
    case Borrowed(_) => Failure(NotResizable)
  }

  /** `reserve(n)` as written. For `blob_t<T>` it only grows the capacity,
      which the byte view does not see; for `blob_t<bool>` it calls
      `resize`. */
  function ReserveAsWritten(b: Blob, n: nat): (r: Result<Blob, BlobError>)
    requires Valid(b)
    ensures b.OwnedBool? ==> r.Success? && NBytes(r.value) == n
    ensures b.OwnedBool? ==> r == Resize(b, n)
    ensures b.Owned? ==> (r.Success? <==> n % b.elemSize == 0)
    ensures b.Owned? && r.Success? ==> r.value == b
    ensures b.Borrowed? ==> r == Failure(NotResizable)
    ensures !b.OwnedBool? ==> r == Reserve(b, n)
  {
    match b
    case Owned(size, _) => if n % size != 0 then Failure(Misaligned) else Success(b)
    case OwnedBool(bytes) => Success(OwnedBool(Fit(bytes, n)))
    case Borrowed(_) => Failure(NotResizable)
  }

  /** Reserving on a four-byte boolean blob with room for sixteen bytes
      makes it a sixteen-byte blob; reserving zero empties it. */
  lemma ReserveAsWrittenResizesBools()
    ensures ReserveAsWritten(OwnedBool([1, 0, 1, 1]), 16).value.bytes == [1, 0, 1, 1] + Zeros(12)
    ensures NBytes(ReserveAsWritten(OwnedBool([1, 0, 1, 1]), 0).value) == 0
  {
  }

  /** `reserve(n)` as intended: it checks the element alignment of a typed
      blob, refuses borrowed memory, and never changes the contents. */
  function Reserve(b: Blob, n: nat): (r: Result<Blob, BlobError>)
    requires Valid(b)
    ensures b.Borrowed? ==> r == Failure(NotResizable)
    ensures b.Owned? ==> (r.Success? <==> n % b.elemSize == 0)
    ensures b.OwnedBool? ==> r.Success?
    ensures r.Success? ==> r.value == b
  {
    match b
    case Owned(size, _) => if n % size != 0 then Failure(Misaligned) else Success(b)
    case OwnedBool(_) => Success(b)
    case Borrowed(_) => Failure(NotResizable)
  }

  /** Resizing twice to the same size is resizing once. */
  lemma ResizeIdempotent(b: Blob, n: nat)
    requires Valid(b) && Resize(b, n).Success?
    ensures Resize(Resize(b, n).value, n) == Resize(b, n)
  {
    var once := Resize(b, n).value;
    assert Fit(once.bytes, n) == once.bytes;
  }

  /** Shrinking then growing back keeps the surviving prefix and zeroes the rest. */
  lemma ShrinkThenRegrow(b: Blob, n: nat)
    requires Valid(b) && !b.Borrowed? && n <= NBytes(b)
    requires b.Owned? ==> n % b.elemSize == 0
    ensures Resize(Resize(b, n).value, NBytes(b)).value.bytes == b.bytes[..n] + Zeros(NBytes(b) - n)
  {
    var small := Resize(b, n).value;
    assert small.bytes == b.bytes[..n];
  }
}
