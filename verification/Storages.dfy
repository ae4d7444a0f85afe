/** storage.cpp: one run of bytes kept in several files, and a window kept in one file that wraps around. */
module Storages {
  import opened Powers

  type Bytes = seq<bv8>

  function Concat(cs: seq<Bytes>): Bytes {
    if cs == [] then [] else Concat(cs[..|cs| - 1]) + cs[|cs| - 1]
  }

  lemma {:induction false} ConcatSplit(cs: seq<Bytes>, i: nat)
    requires i < |cs|
    ensures |Concat(cs[..i])| + |cs[i]| <= |Concat(cs)|
    ensures Concat(cs)[..|Concat(cs[..i])|] == Concat(cs[..i])
    ensures Concat(cs)[|Concat(cs[..i])|..|Concat(cs[..i])| + |cs[i]|] == cs[i]
    decreases |cs|
  {
    var n := |cs| - 1;
    if i < n {
      assert cs[..n][..i] == cs[..i];
      ConcatSplit(cs[..n], i);
    }
  }

  /** Overwrites part of a sequence. */
  ghost function Splice(s: Bytes, at: nat, b: Bytes): (r: Bytes)
    requires at + |b| <= |s|
    ensures |r| == |s|
  {
    s[..at] + b + s[at + |b|..]
  }

  lemma SpliceIs(s: Bytes, at: nat, b: Bytes)
    requires at + |b| <= |s|
    ensures Splice(s, at, b) == s[..at] + b + s[at + |b|..]
    ensures forall k :: 0 <= k < |s| ==> Splice(s, at, b)[k] == if at <= k < at + |b| then b[k - at] else s[k]
  {
  }

  /** Overwriting in one file is overwriting in the whole. */
  lemma {:induction false} ConcatSplice(cs: seq<Bytes>, i: nat, at: nat, b: Bytes)
    requires i < |cs| && at + |b| <= |cs[i]|
    ensures |Concat(cs[..i])| + |cs[i]| <= |Concat(cs)|
    ensures Concat(cs[i := Splice(cs[i], at, b)]) == Splice(Concat(cs), |Concat(cs[..i])| + at, b)
    decreases |cs|
  {
    hide Concat, Splice;
    ConcatSplit(cs, i);
    var n := |cs| - 1;
    var ds := cs[i := Splice(cs[i], at, b)];
    ConcatLast(cs);
    ConcatLast(ds);
    if i < n {
      assert cs[..n][..i] == cs[..i];
      ConcatSplice(cs[..n], i, at, b);
      assert ds[..n] == cs[..n][i := Splice(cs[i], at, b)] && ds[n] == cs[n];
      SpliceFront(Concat(cs[..n]), cs[n], |Concat(cs[..i])| + at, b);
    } else {
      assert ds[..n] == cs[..n];
      SpliceBack(Concat(cs[..n]), cs[n], at, b);
    }
  }

  lemma ConcatLast(cs: seq<Bytes>)
    requires cs != []
    ensures Concat(cs) == Concat(cs[..|cs| - 1]) + cs[|cs| - 1]
  {
  }

  lemma SpliceFront(s: Bytes, u: Bytes, at: nat, b: Bytes)
    requires at + |b| <= |s|
    ensures Splice(s + u, at, b) == Splice(s, at, b) + u
  {
  }

  lemma SpliceBack(s: Bytes, u: Bytes, at: nat, b: Bytes)
    requires at + |b| <= |u|
    ensures Splice(s + u, |s| + at, b) == s + Splice(u, at, b)
  {
  }

  lemma SpliceTwice(s: Bytes, at: nat, b: Bytes, m: nat)
    requires at + |b| <= |s| && m <= |b|
    ensures Splice(Splice(s, at, b[..m]), at + m, b[m..]) == Splice(s, at, b)
  {
  }

  /** What a write does to the run: all of it, or, past the end, as much as fits and then an error. */
  ghost predicate Written(before: Bytes, after: Bytes, buf: Bytes, offset: int, ret: int) {
    if offset < 0 || offset >= |before| then ret == -1 && after == before
    else if offset + |buf| <= |before| then ret == |buf| && after == Splice(before, offset, buf)
    else ret == -1 && after == before[..offset] + buf[..|before| - offset]
  }

  /** A write of the head followed by one of the tail is a write of both. */
  lemma WrittenMore(before: Bytes, mid: Bytes, after: Bytes, buf: Bytes, head: nat, offset: nat, ret: int)
    requires 0 < head < |buf| && offset + head <= |before| && offset < |before| && mid == Splice(before, offset, buf[..head])
    requires Written(mid, after, buf[head..], offset + head, ret)
    ensures Written(before, after, buf, offset, if ret >= 0 then head + ret else ret)
  {
    if offset + |buf| <= |before| {
      SpliceTwice(before, offset, buf, head);
    } else if offset + head < |before| {
      var n := |before| - offset;
      assert buf[..n] == buf[..head] + buf[head..][..n - head];
    } else {
      assert after == mid;
    }
  }

  /** At most n bytes from an offset on. */
  ghost function Window(s: Bytes, offset: nat, n: nat): Bytes
    requires offset <= |s|
  {
    s[offset..if offset + n <= |s| then offset + n else |s|]
  }

  lemma FilePart(all: Bytes, data: Bytes, start: nat, at: nat, got: nat)
    requires start + |data| <= |all| && all[start..start + |data|] == data && at + got <= |data|
    ensures data[at..at + got] == all[start + at..start + at + got]
  {
    var lhs, rhs := data[at..at + got], all[start + at..start + at + got];
    assert |lhs| == |rhs|;
    forall k | 0 <= k < got ensures lhs[k] == rhs[k] {
      assert lhs[k] == data[at + k] == all[start..start + |data|][at + k];
    }
  }

  class StorageFile {
    const start: nat
    var data: Bytes

    constructor (from: nat, content: Bytes)
      ensures start == from && data == content
    {
      start, data := from, content;
    }

    /** One past the last offset of the file. */
    function End(): nat
      reads this
    {
      start + |data|
    }
  }

  class MultiFile {
    const files: seq<StorageFile>
    var last: StorageFile?

    constructor (fs: seq<StorageFile>)
      ensures files == fs && last == null
    {
      files, last := fs, null;
    }

    /** The files lie side by side from offset 0 on; some may be empty. */
    ghost predicate Valid()
      reads this, files
    {
      (forall i, j :: 0 <= i < j < |files| ==> files[i] != files[j]) &&
      (files != [] ==> files[0].start == 0) &&
      (forall i :: 0 < i < |files| ==> files[i].start == files[i - 1].End()) &&
      (last != null ==> last in files)
    }

    ghost function Contents(): (cs: seq<Bytes>)
      reads files
      ensures |cs| == |files| && forall i :: 0 <= i < |files| ==> cs[i] == files[i].data
    {
      seq(|files|, i requires 0 <= i < |files| reads files => files[i].data)
    }

    /** The one run of bytes that the files hold. */
    ghost function All(): Bytes
      reads files
    {
      Concat(Contents())
    }

    lemma {:induction false} StartIs(i: nat)
      requires Valid() && i < |files|
      ensures files[i].start == |Concat(Contents()[..i])|
    {
      var cs := Contents();
      var ds := cs[..i];
      if i > 0 {
        StartIs(i - 1);
        assert ds[..|ds| - 1] == cs[..i - 1] && ds[|ds| - 1] == files[i - 1].data;
      } else {
        assert ds == [];
      }
    }

    lemma {:induction false} StartsRise(i: nat, j: nat)
      requires Valid() && i < j < |files|
      ensures files[i].End() <= files[j].start
      decreases j
    {
      if i < j - 1 {
        StartsRise(i, j - 1);
      }
    }

    lemma AllOf(i: nat)
      requires Valid() && i < |files|
      ensures files[i].End() <= |All()| && All()[files[i].start..files[i].End()] == files[i].data
    {
      StartIs(i);
      ConcatSplit(Contents(), i);
    }

    lemma {:induction false} TotalIs(n: nat)
      requires Valid() && n <= |files|
      ensures |Concat(Contents()[..n])| == if n == 0 then 0 else files[n - 1].End()
    {
      if n > 0 {
        StartIs(n - 1);
        assert Contents()[..n][..n - 1] == Contents()[..n - 1];
      }
    }

    /** FindStorageFile: binary search for the file over an offset. */
    method FindStorageFile(offset: int) returns (sf: StorageFile?, ghost i: nat)
      requires Valid()
      ensures sf == null <==> offset < 0 || offset >= |All()|
      ensures sf != null ==> i < |files| && sf == files[i] && sf.start <= offset < sf.End()
    {
      hide Concat;
      var imin, imax := 0, |files| - 1;
      i := 0;
      while imax >= imin
        invariant 0 <= imin <= |files| && -1 <= imax < |files| && imin <= imax + 1
        invariant imin > 0 ==> offset >= files[imin - 1].End()
        invariant imax < |files| - 1 ==> offset < files[imax + 1].start
        decreases imax - imin + 1
      {
        var imid := (imin + imax) / 2;
        if offset >= files[imid].End() {
          imin := imid + 1;
        } else if offset < files[imid].start {
          imax := imid - 1;
        } else {
          i := imid;
          AllOf(i);
          return files[imid], i;
        }
      }
      TotalIs(|files|);
      assert Contents()[..|files|] == Contents();
      return null, 0;
    }

    /** The file over an offset: the last one used, or the one the search finds. */
    method Locate(offset: int) returns (sf: StorageFile?, ghost i: nat)
      requires Valid()
      modifies this`last
      ensures Valid()
      ensures sf == null <==> offset < 0 || offset >= |All()|
      ensures sf != null ==> i < |files| && sf == files[i] && sf.start <= offset < sf.End()
      ensures last == if sf != null then sf else old(last)
    {
      if last != null && offset >= last.start && offset <= last.End() - 1 {
        i :| 0 <= i < |files| && files[i] == last;
        AllOf(i);
        return last, i;
      }
      sf, i := FindStorageFile(offset);
      if sf == null {
        return;
      }
      last := sf;
    }

    /** WriteBuffer: the part of the data that fits the file; returns how much that is and how much is left. */
    method WriteBuffer(sf: StorageFile, ghost i: nat, buf: Bytes, offset: nat) returns (head: nat, tail: nat)
      requires Valid() && i < |files| && sf == files[i] && sf.start <= offset < sf.End()
      modifies sf`data
      ensures Valid() && head + tail == |buf| && (buf != [] ==> head > 0) && offset + head <= |old(All())|
      ensures All() == Splice(old(All()), offset, buf[..head])
      ensures tail > 0 ==> offset + head == sf.End()
    {
      AllOf(i);
      if offset + |buf| <= sf.End() - 1 + 1 {
        head, tail := |buf|, 0;
      } else {
        head := sf.End() - 1 + 1 - offset;
        tail := |buf| - head;
      }
      PutPart(sf, i, buf[..head], offset - sf.start);
    }

    /** A write within one file. */
    method PutPart(sf: StorageFile, ghost i: nat, part: Bytes, at: nat)
      requires Valid() && i < |files| && sf == files[i] && at + |part| <= |sf.data|
      modifies sf`data
      ensures Valid() && |sf.data| == |old(sf.data)| && sf.start + at + |part| <= |old(All())|
      ensures All() == Splice(old(All()), sf.start + at, part)
    {
      hide Concat, Splice;
      ghost var cs := Contents();
      AllOf(i);
      StartIs(i);
      ConcatSplice(cs, i, at, part);
      SpliceIs(sf.data, at, part);
      sf.data := sf.data[..at] + part + sf.data[at + |part|..];
      assert Contents() == cs[i := Splice(cs[i], at, part)];
    }

    /** Write in the complete state: one write to the whole run; what does not fit is an error after the rest was written. */
    method Write(buf: Bytes, offset: int) returns (ret: int)
      requires Valid()
      modifies this`last, files
      ensures Valid() && Written(old(All()), All(), buf, offset, ret)
      decreases |buf|
    {
      hide Concat, Splice, MultiFile.All, MultiFile.Contents;
      var sf, i := Locate(offset);
      if sf == null {
        return -1;
      }
      ghost var all := All();
      var head, tail := WriteBuffer(sf, i, buf, offset);
      if tail > 0 {
        ghost var mid := All();
        ret := Write(buf[head..], offset + head);
        WrittenMore(all, mid, All(), buf, head, offset, ret);
        if ret >= 0 {
          ret := head + ret;
        }
      } else {
        ret := head;
        assert buf[..head] == buf;
      }
    }

    /** Read in the complete state: the bytes of the run, up to its end; total is the size the hash tree knows. */
    method Read(nbyte: nat, offset: int, total: nat) returns (ret: int, buf: Bytes)
      requires Valid() && total == |All()|
      modifies this`last
      ensures Valid()
      ensures offset < 0 || offset >= |All()| ==> ret == -1
      ensures 0 <= offset < |All()| ==> ret == |buf| && buf == Window(All(), offset, nbyte)
      decreases nbyte
    {
      hide Concat, MultiFile.All, MultiFile.Contents;
      var sf, i := Locate(offset);
      if sf == null {
        return -1, [];
      }
      AllOf(i);
      var at := offset - sf.start;
      var got := if at + nbyte <= |sf.data| then nbyte else |sf.data| - at;
      buf := sf.data[at..at + got];
      ret := got;
      FilePart(All(), sf.data, sf.start, at, got);
      if ret < nbyte && offset + ret != total {
        var newret, rest := Read(nbyte - ret, offset + ret, total);
        if newret < 0 {
          return newret, [];
        }
        ret := ret + newret;
        buf := buf + rest;
      }
    }
  }

  // ------------------------------------------------------------------
  // The wrapped window of a live stream

  class Wrapped {
    const window: nat
    var file: Bytes
    ghost var stream: Bytes

    /** The file holds the last window of the stream, each byte at its offset modulo the window. */
    ghost predicate Valid()
      reads this
    {
      window > 0 && |file| == (if |stream| < window then |stream| else window) &&
      forall j :: 0 <= j < |stream| <= j + window ==> Slot(j) < |file| && file[Slot(j)] == stream[j]
    }

    function Slot(j: nat): (r: nat) {
      if window == 0 then 0 else j % window
    }

    constructor (w: nat)
      requires w > 0
      ensures Valid() && window == w && stream == []
    {
      window, file, stream := w, [], [];
    }

    /** pwrite at an offset inside or at the end of the file. */
    method PutAt(buf: Bytes, at: nat)
      requires at <= |file|
      modifies this`file
      ensures |file| == if at + |buf| > |old(file)| then at + |buf| else |old(file)|
      ensures forall k :: 0 <= k < |file| ==> file[k] == if at <= k < at + |buf| then buf[k - at] else old(file)[k]
    {
      file := file[..at] + buf + (if at + |buf| < |file| then file[at + |buf|..] else []);
    }

    /** Write in the live state, at the end of the stream: split where the window wraps. */
    method Write(buf: Bytes, offset: nat) returns (ret: nat)
      requires Valid() && offset == |stream|
      modifies this
      ensures Valid() && stream == old(stream) + buf
      ensures ret == LastPiece(window, offset, |buf|)
      ensures ret <= |buf| && (ret == |buf| <==> |buf| <= window - offset % window)
      decreases |buf|
    {
      var newoff := offset % window;
      WrapStart(offset);
      PieceCounts(window, offset, |buf|);
      if newoff + |buf| > window {
        var firstbyte := window - newoff;
        PutPiece(buf[..firstbyte], newoff);
        assert buf == buf[..firstbyte] + buf[firstbyte..];
        ret := Write(buf[firstbyte..], offset + firstbyte);
      } else {
        PutPiece(buf, newoff);
        ret := |buf|;
      }
    }

    /** A piece that does not wrap. */
    method PutPiece(buf: Bytes, at: nat)
      requires Valid() && at == |stream| % window && at + |buf| <= window && at <= |file|
      modifies this
      ensures Valid() && stream == old(stream) + buf
    {
      ghost var was, n := stream, |stream|;
      PutAt(buf, at);
      stream := stream + buf;
      Grown(n, at, |buf|, |old(file)|);
      forall j | 0 <= j < |stream| <= j + window ensures Slot(j) < |file| && file[Slot(j)] == stream[j] {
        if j >= n {
          Near(n, at, j);
        } else {
          Away(n, at, |buf|, j);
          assert old(file)[Slot(j)] == was[j];
        }
      }
    }

    lemma WrapStart(n: nat)
      requires Valid() && n == |stream|
      ensures n % window <= |file|
    {
    }

    lemma Grown(n: nat, at: nat, len: nat, size: nat)
      requires window > 0 && at == n % window && at + len <= window && size == (if n < window then n else window)
      ensures (if at + len > size then at + len else size) == if n + len < window then n + len else window
    {
      if n >= window {
      } else {
        assert at == n;
      }
    }

    /** The new bytes go to consecutive slots. */
    lemma Near(n: nat, at: nat, j: nat)
      requires window > 0 && at == n % window && n <= j && at + (j - n) < window
      ensures Slot(j) == at + (j - n)
    {
      var q := n / window;
      assert n == window * q + at;
      Remainder(window, q, at + (j - n), j);
    }

    /** Bytes still in the window are not in the slots written. */
    lemma Away(n: nat, at: nat, len: nat, j: nat)
      requires window > 0 && at == n % window && at + len <= window && j < n && n + len <= j + window
      ensures !(at <= Slot(j) < at + len)
    {
      var q := n / window;
      assert n == window * q + at;
      if j >= window * q {
        Remainder(window, q, j - window * q, j);
      } else {
        Distribute(window, q, 1);
        SignOfProduct(window, q - 1);
        Remainder(window, q - 1, j - window * (q - 1), j);
      }
    }

    /** Read in the live state, up to the end of the file: bytes of the last window are those last written there. */
    method Read(nbyte: nat, offset: nat) returns (buf: Bytes)
      requires Valid()
      ensures |buf| <= nbyte && (buf != [] ==> Slot(offset) + |buf| <= |file| && buf == file[Slot(offset)..Slot(offset) + |buf|])
      ensures |buf| < nbyte ==> Slot(offset) + |buf| >= |file|
      ensures |stream| <= offset + window ==> forall k :: 0 <= k < |buf| && offset + k < |stream| ==> buf[k] == stream[offset + k]
      ensures offset + nbyte <= |stream| <= offset + window && Slot(offset) + nbyte <= window ==> buf == stream[offset..offset + nbyte]
    {
      var newoff := offset % window;
      buf := if newoff >= |file| then [] else file[newoff..newoff + Available(nbyte, newoff)];
      assert newoff == Slot(offset);
      ReadBytes(offset, newoff, nbyte, buf);
    }

    /** How much of a read at a place of the file there is. */
    function Available(nbyte: nat, at: nat): (n: nat)
      reads this`file
    {
      if at >= |file| then 0 else if at + nbyte <= |file| then nbyte else |file| - at
    }

    lemma ReadBytes(offset: nat, newoff: nat, nbyte: nat, buf: Bytes)
      requires Valid() && Slot(offset) == newoff && |buf| == Available(nbyte, newoff)
      requires newoff < |file| ==> buf == file[newoff..newoff + |buf|]
      ensures |stream| <= offset + window ==> forall k :: 0 <= k < |buf| && offset + k < |stream| ==> buf[k] == stream[offset + k]
      ensures offset + nbyte <= |stream| <= offset + window && newoff + nbyte <= window ==> buf == stream[offset..offset + nbyte]
    {
      hide Slot;
      if |stream| <= offset + window {
        forall k | 0 <= k < |buf| && offset + k < |stream| ensures buf[k] == stream[offset + k] {
          ReadByte(offset, newoff, k);
        }
        if offset + nbyte <= |stream| && newoff + nbyte <= window {
          LastInFile(offset, newoff, nbyte);
        }
      }
    }

    lemma ReadByte(offset: nat, newoff: nat, k: nat)
      requires Valid() && newoff == Slot(offset) && newoff + k < window && offset + k < |stream| <= offset + window
      ensures newoff + k < |file| && file[newoff + k] == stream[offset + k]
    {
      var j := offset + k;
      Near(offset, newoff, j);
      assert Slot(j) < |file| && file[Slot(j)] == stream[j];
    }

    lemma LastInFile(offset: nat, newoff: nat, nbyte: nat)
      requires Valid() && newoff == Slot(offset) && offset + nbyte <= |stream| && newoff + nbyte <= window
      ensures newoff + nbyte <= |file|
    {
    }
  }

  /** How many bytes of a write of n bytes at an offset come after the last wrap, or n if there is none. */
  function LastPiece(w: nat, offset: nat, n: nat): nat
    requires w > 0
  {
    if n <= w - offset % w then n else (offset + n - 1) % w + 1
  }

  /** The last piece is that of the rest; it is the whole only if nothing wraps. */
  lemma PieceCounts(w: nat, offset: nat, n: nat)
    requires w > 0
    ensures LastPiece(w, offset, n) <= n && (LastPiece(w, offset, n) == n <==> n <= w - offset % w)
    ensures n > w - offset % w ==> LastPiece(w, offset, n) == LastPiece(w, offset + (w - offset % w), n - (w - offset % w))
  {
    if n > w - offset % w {
      var first, q := w - offset % w, offset / w;
      assert offset + first == w * (q + 1) by {
        Distribute(w, q + 1, q);
      }
      Remainder(w, q + 1, 0, offset + first);
      if n - first <= w {
        Remainder(w, q + 1, n - first - 1, offset + n - 1);
      } else {
        assert 0 <= (offset + n - 1) % w < w;
      }
    }
  }

  /** Six bytes written at once through a window of four: the count returned is two. */
  method ShortCount(buf: Bytes) returns (ret: nat)
    requires |buf| == 6
    ensures ret == 2
  {
    var w := new Wrapped(4);
    ret := w.Write(buf, 0);
  }

  lemma Remainder(w: nat, q: int, r: nat, x: nat)
    requires w > 0 && r < w && x == w * q + r
    ensures x % w == r
  {
    Distribute(w, x / w, q);
    SignOfProduct(w, x / w - q);
    SignOfProduct(w, q - x / w);
    Distribute(w, q, x / w);
  }

  /** Reading whole chunks at chunk boundaries never wraps when the window is a whole number of chunks. */
  lemma ChunkFits(window: nat, chunk: nat, k: nat, offset: nat)
    requires chunk > 0 && k > 0 && window == chunk * k && offset % chunk == 0
    ensures offset % window + chunk <= window
  {
    var r, q := offset % window, offset / window;
    assert offset == window * q + r;
    var u := offset / chunk;
    assert offset == chunk * u;
    assert window * q == chunk * (k * q);
    Distribute(chunk, u, k * q);
    var v := u - k * q;
    assert r == chunk * v;
    Distribute(chunk, k, v);
    SignOfProduct(chunk, k - v);
    assert chunk * (k - v) == window - r > 0;
    if k - v <= 0 {
      assert false;
    }
  }
}
