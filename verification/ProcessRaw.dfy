/** The split raw image of image_process.cpp: several files read as one flat image,
    page by page. */
module ProcessRaw {
  import opened Basics

  // ---------------------------------------------------------------------------
  // The files and the flat image

  /** One file of the image: where it starts in the flat image, and its bytes. */
  datatype FileInfo = FileInfo(offset: nat, bytes: seq<byte>)

  /** The files end to end. */
  function Flat(files: seq<FileInfo>): seq<byte>
    decreases |files|
  {
    if files == [] then [] else Flat(files[..|files| - 1]) + files[|files| - 1].bytes
  }

  /** Each file starts where the one before it ends. */
  predicate Tiles(files: seq<FileInfo>)
    decreases |files|
  {
    files == []
    || (Tiles(files[..|files| - 1]) && files[|files| - 1].offset == |Flat(files[..|files| - 1])|)
  }

  predicate Covers(f: FileInfo, pos: nat) { f.offset <= pos < f.offset + |f.bytes| }

  /** Every offset of the flat image lies in exactly one file, at the right place; no
      offset past the end lies in any. */
  lemma {:induction false} FileOfOffset(files: seq<FileInfo>, pos: nat)
    requires Tiles(files)
    ensures pos < |Flat(files)| <==> exists i :: 0 <= i < |files| && Covers(files[i], pos)
    ensures forall i :: 0 <= i < |files| && Covers(files[i], pos) ==>
              files[i].offset + |files[i].bytes| <= |Flat(files)|
              && Flat(files)[files[i].offset..files[i].offset + |files[i].bytes|] == files[i].bytes
    decreases |files|
  {
    if files != [] {
      var n := |files| - 1;
      var init, last := files[..n], files[n];
      FileOfOffset(init, pos);
      assert forall i :: 0 <= i < n ==> init[i] == files[i];
      assert Flat(files)[..|Flat(init)|] == Flat(init);
      forall i | 0 <= i < |files| && Covers(files[i], pos)
        ensures files[i].offset + |files[i].bytes| <= |Flat(files)|
        ensures Flat(files)[files[i].offset..files[i].offset + |files[i].bytes|] == files[i].bytes
      {
        if i < n {
          assert Covers(init[i], pos);
          var a, b := files[i].offset, files[i].offset + |files[i].bytes|;
          assert Flat(files)[a..b] == Flat(init)[a..b];
        }
      }
      if pos < |Flat(files)| {
        if pos < |Flat(init)| {
          var i :| 0 <= i < n && Covers(init[i], pos);
          assert Covers(files[i], pos);
        } else {
          assert Covers(files[n], pos);
        }
      }
    }
  }

  function Min(a: nat, b: nat): nat { if a < b then a else b }

  // ---------------------------------------------------------------------------
  // Pages

  /** A buffer handed to the scanners: a page and the margin after it. */
  datatype Sbuf = Sbuf(pos0: nat, buf: seq<byte>, pagesize: nat)

  datatype ReadFailure = EndOfImage | BadAlloc

  /** The page of `image` at `off`. */
  function PageAt(image: seq<byte>, off: nat, pagesize: nat, margin: nat): Sbuf
    requires off <= |image|
  {
    Sbuf(off, image[off..Min(off + pagesize + margin, |image|)], Min(pagesize, |image| - off))
  }

  /** Where the iterator goes from `off`. */
  function NextOffset(size: nat, off: nat, pagesize: nat): nat { Min(off + pagesize, size) }

  /** Where `seek_block` goes: a block beyond the end is taken for the one that the end
      is in, which has no bytes if the size is a multiple of the page size. */
  function SeekOffset(size: nat, pagesize: nat, block: nat): nat
    requires pagesize > 0
  {
    if block * pagesize > size then size / pagesize * pagesize else block * pagesize
  }

  /** The offsets from `off` to the end of the image. */
  function Offsets(size: nat, off: nat, pagesize: nat): (s: seq<nat>)
    requires pagesize > 0 && off <= size
    decreases size - off
  {
    if off == size then [] else [off] + Offsets(size, NextOffset(size, off, pagesize), pagesize)
  }

  /** `max_blocks`. */
  function MaxBlocks(size: nat, pagesize: nat): nat
    requires pagesize > 0
  {
    (size + pagesize - 1) / pagesize
  }

  /** The pages without their margins, end to end. */
  function Bodies(image: seq<byte>, offsets: seq<nat>, pagesize: nat): seq<byte>
    decreases |offsets|
  {
    if offsets == [] || offsets[0] > |image| then []
    else
      var p := PageAt(image, offsets[0], pagesize, 0);
      p.buf + Bodies(image, offsets[1..], pagesize)
  }

  lemma DivStep(n: nat, d: nat)
    requires d > 0
    ensures (n + d) / d == n / d + 1
  {
    DivUnique(n + d, d, n / d + 1, n % d);
  }

  lemma DivUnique(n: nat, d: nat, q: nat, r: nat)
    requires d > 0 && n == q * d + r && r < d
    ensures n / d == q
  {
    var q' := n / d;
    assert n == q' * d + n % d;
    if q' < q { assert q' * d + d <= q * d by { MulLe(q' + 1, q, d); } }
    if q' > q { assert q * d + d <= q' * d by { MulLe(q + 1, q', d); } }
  }

  lemma {:induction false} PagesCount(size: nat, off: nat, pagesize: nat)
    requires pagesize > 0 && off <= size
    ensures |Offsets(size, off, pagesize)| == MaxBlocks(size - off, pagesize)
    decreases size - off
  {
    if off == size {
      DivUnique(pagesize - 1, pagesize, 0, pagesize - 1);
    } else {
      var next := NextOffset(size, off, pagesize);
      PagesCount(size, next, pagesize);
      if off + pagesize <= size {
        DivStep(size - next + pagesize - 1, pagesize);
      } else {
        DivUnique(pagesize - 1, pagesize, 0, pagesize - 1);
        DivUnique(size - off + pagesize - 1, pagesize, 1, size - off - 1);
      }
    }
  }

  /** The pages partition the rest of the image, and there are as many as `max_blocks`
      says for it. */
  lemma {:induction false} PagesPartition(image: seq<byte>, off: nat, pagesize: nat)
    requires pagesize > 0 && off <= |image|
    ensures Bodies(image, Offsets(|image|, off, pagesize), pagesize) == image[off..]
    ensures |Offsets(|image|, off, pagesize)| == MaxBlocks(|image| - off, pagesize)
    decreases |image| - off
  {
    hide MaxBlocks, PageAt;
    var size := |image|;
    PagesCount(size, off, pagesize);
    if off < size {
      var next := NextOffset(size, off, pagesize);
      PagesPartition(image, next, pagesize);
      assert Offsets(size, off, pagesize)[1..] == Offsets(size, next, pagesize);
      PageBody(image, off, pagesize);
    }
  }

  lemma PageBody(image: seq<byte>, off: nat, pagesize: nat)
    requires off <= |image|
    ensures image[off..] == PageAt(image, off, pagesize, 0).buf + image[NextOffset(|image|, off, pagesize)..]
  {
  }

  /** A page's buffer is its body and at most `margin` bytes more, those that follow it in
      the image; there are fewer only at the end of the image. */
  lemma PageAndMargin(image: seq<byte>, off: nat, pagesize: nat, margin: nat)
    requires off <= |image|
    ensures var p, end := PageAt(image, off, pagesize, margin), NextOffset(|image|, off, pagesize);
            && p.buf[..p.pagesize] == PageAt(image, off, pagesize, 0).buf == image[off..end]
            && p.buf[p.pagesize..] <= image[end..]
            && |p.buf| - p.pagesize == if |image| - end < margin then |image| - end else margin
  {
  }

  /** The `k`-th page starts at `off + k * pagesize`. */
  lemma {:induction false} OffsetOfPage(size: nat, off: nat, pagesize: nat, k: nat)
    requires pagesize > 0 && off <= size && k < |Offsets(size, off, pagesize)|
    ensures Offsets(size, off, pagesize)[k] == off + k * pagesize < size
    decreases k
  {
    if k > 0 { OffsetOfPage(size, NextOffset(size, off, pagesize), pagesize, k - 1); }
  }

  /** Nothing falls between pages: any string of at most margin + 1 bytes lies wholly
      in the buffer of the page in which it starts. */
  lemma StringInPage(image: seq<byte>, at: nat, len: nat, pagesize: nat, margin: nat) returns (k: nat, off: nat)
    requires pagesize > 0 && len <= margin + 1 && at + len <= |image| && at < |image|
    ensures k < |Offsets(|image|, 0, pagesize)| && off == Offsets(|image|, 0, pagesize)[k]
    ensures off <= at < off + pagesize && off <= |image|
    ensures var buf := PageAt(image, off, pagesize, margin).buf;
            at - off + len <= |buf| && buf[at - off..at - off + len] == image[at..at + len]
  {
    hide Offsets, MaxBlocks, Bodies;
    k := at / pagesize;
    PageOfOffset(|image|, at, pagesize);
    PagesPartition(image, 0, pagesize);
    OffsetOfPage(|image|, 0, pagesize, k);
    off := Offsets(|image|, 0, pagesize)[k];
    SliceOfSlice(image, off, Min(off + pagesize + margin, |image|), at - off, len);
  }

  lemma SliceOfSlice(image: seq<byte>, a: nat, b: nat, i: nat, len: nat)
    requires a <= b <= |image| && a + i + len <= b
    ensures image[a..b][i..i + len] == image[a + i..a + i + len]
  {
    var s, t := image[a..b][i..i + len], image[a + i..a + i + len];
    assert forall j :: 0 <= j < len ==> s[j] == image[a..b][i + j] == image[a + i + j] == t[j];
  }

  lemma PageOfOffset(size: nat, at: nat, pagesize: nat)
    requires pagesize > 0 && at < size
    ensures at / pagesize < MaxBlocks(size, pagesize)
    ensures at / pagesize * pagesize <= at < at / pagesize * pagesize + pagesize
  {
    var k, n, last := at / pagesize, MaxBlocks(size, pagesize), size + pagesize - 1;
    assert at == k * pagesize + at % pagesize;
    assert last == n * pagesize + last % pagesize;
    if n <= k { MulLe(n, k, pagesize); }
  }

  // ---------------------------------------------------------------------------
  // The code

  /** Two reads, one after the other, are one read. */
  lemma Joined(was: seq<byte>, mid: seq<byte>, now: seq<byte>, image: seq<byte>, at: nat, n: nat, more: nat, offset: nat)
    requires |was| == |mid| == |now| && at + n + more <= |was| && offset + n + more <= |image|
    requires mid[..at] == was[..at] && mid[at..at + n] == image[offset..offset + n] && mid[at + n..] == was[at + n..]
    requires now[..at + n] == mid[..at + n] && now[at + n + more..] == mid[at + n + more..]
    requires more > 0 ==> now[at + n..at + n + more] == image[offset + n..offset + n + more]
    ensures now[..at] == was[..at] && now[at + n + more..] == was[at + n + more..]
    ensures now[at..at + n + more] == image[offset..offset + n + more]
  {
    SamePrefix(now, mid, at + n, at, n);
    SameSuffix(mid, was, at + n, more);
    SplitSlice(now, at, n, more);
    SplitSlice(image, offset, n, more);
    if more == 0 { assert now[at + n..at + n + more] == image[offset + n..offset + n + more]; }
  }

  lemma SamePrefix(a: seq<byte>, b: seq<byte>, k: nat, i: nat, n: nat)
    requires k <= |a| == |b| && a[..k] == b[..k] && i + n <= k
    ensures a[..i] == b[..i] && a[i..i + n] == b[i..i + n]
  {
    assert a[..i] == a[..k][..i] && b[..i] == b[..k][..i];
    assert a[i..i + n] == a[..k][i..i + n] && b[i..i + n] == b[..k][i..i + n];
  }

  lemma SameSuffix(a: seq<byte>, b: seq<byte>, k: nat, n: nat)
    requires k + n <= |a| == |b| && a[k..] == b[k..]
    ensures a[k + n..] == b[k + n..]
  {
    assert a[k + n..] == a[k..][n..] && b[k + n..] == b[k..][n..];
  }

  lemma SplitSlice(a: seq<byte>, i: nat, n: nat, m: nat)
    requires i + n + m <= |a|
    ensures a[i..i + n + m] == a[i..i + n] + a[i + n..i + n + m]
  {
  }

  class Iterator {
    var rawOffset: nat
    var pageNumber: nat
    var fileNumber: nat
    var eof: bool

    constructor ()
      ensures rawOffset == 0 && pageNumber == 0 && fileNumber == 0 && !eof
    {
      rawOffset, pageNumber, fileNumber, eof := 0, 0, 0, false;
    }
  }

  class RawImage {
    const pagesize: nat
    const margin: nat
    var fileList: seq<FileInfo>
    var rawFilesize: nat

    ghost predicate Valid()
      reads this
    {
      Tiles(fileList) && rawFilesize == |Flat(fileList)|
    }

    ghost function Image(): seq<byte>
      reads this
    {
      Flat(fileList)
    }

    constructor (pagesize: nat, margin: nat)
      ensures Valid() && Image() == [] && this.pagesize == pagesize && this.margin == margin
    {
      this.pagesize, this.margin := pagesize, margin;
      fileList, rawFilesize := [], 0;
    }

    /** Append one file. */
    method AddFile(bytes: seq<byte>)
      requires Valid()
      modifies this
      ensures Valid() && Image() == old(Image()) + bytes
    {
      ghost var was := fileList;
      fileList := fileList + [FileInfo(rawFilesize, bytes)];
      rawFilesize := rawFilesize + |bytes|;
      assert fileList[..|fileList| - 1] == was;
    }

    /** The file that holds an offset, by linear search. */
    method FindOffset(pos: nat) returns (f: Option<FileInfo>)
      requires Valid()
      ensures f.Some? <==> pos < |Image()|
      ensures f.Some? ==> Covers(f.value, pos) && f.value.offset + |f.value.bytes| <= |Image()|
                          && Image()[f.value.offset..f.value.offset + |f.value.bytes|] == f.value.bytes
    {
      FileOfOffset(fileList, pos);
      var i := 0;
      while i < |fileList|
        invariant 0 <= i <= |fileList| && forall j :: 0 <= j < i ==> !Covers(fileList[j], pos)
      {
        if fileList[i].offset <= pos < fileList[i].offset + |fileList[i].bytes| {
          return Some(fileList[i]);
        }
        i := i + 1;
      }
      return None;
    }

    /** The part of a read that one file can serve. */
    method ReadSegment(buf: array<byte>, at: nat, bytes: nat, offset: nat) returns (n: nat)
      requires Valid() && at + bytes <= buf.Length
      modifies buf
      ensures n == 0 <==> bytes == 0 || offset >= |Image()|
      ensures n <= bytes && (offset < |Image()| ==> offset + n <= |Image()|)
      ensures n > 0 ==> buf[at..at + n] == Image()[offset..offset + n]
      ensures buf[..at] == old(buf[..at]) && buf[at + n..] == old(buf[at + n..])
    {
      hide Flat, Tiles;
      var fi := FindOffset(offset);
      if fi.None? { return 0; }
      var fileOffset := offset - fi.value.offset;
      var available := |fi.value.bytes| - fileOffset;
      n := bytes;
      if n > available { n := available; }
      SliceOfSlice(Image(), fi.value.offset, fi.value.offset + |fi.value.bytes|, fileOffset, n);
      CopyBytes(buf, at, fi.value.bytes[fileOffset..fileOffset + n]);
    }

    /** Read across file boundaries into `buf` from `at` on; returns how many bytes. */
    method Pread(buf: array<byte>, at: nat, bytes: nat, offset: nat) returns (n: nat)
      requires Valid() && at + bytes <= buf.Length
      modifies buf
      ensures n == if offset < |Image()| then Min(bytes, |Image()| - offset) else 0
      ensures n > 0 ==> buf[at..at + n] == Image()[offset..offset + n]
      ensures buf[..at] == old(buf[..at]) && buf[at + n..] == old(buf[at + n..])
      decreases bytes
    {
      hide Flat, Tiles;
      ghost var was := buf[..];
      var bytesRead := ReadSegment(buf, at, bytes, offset);
      if bytesRead == bytes { return bytesRead; }
      if bytesRead == 0 { return 0; }
      ghost var mid := buf[..];
      var more := Pread(buf, at + bytesRead, bytes - bytesRead, offset + bytesRead);
      n := bytesRead + more;
      Joined(was, mid, buf[..], Image(), at, bytesRead, more, offset);
    }

    /** The read from one file's stream. */
    method CopyBytes(buf: array<byte>, at: nat, s: seq<byte>)
      requires at + |s| <= buf.Length
      modifies buf
      ensures buf[..at] == old(buf[..at]) && buf[at..at + |s|] == s && buf[at + |s|..] == old(buf[at + |s|..])
    {
      var k := 0;
      while k < |s|
        invariant 0 <= k <= |s| && buf[..at] == old(buf[..at]) && buf[at..at + k] == s[..k]
        invariant buf[at + |s|..] == old(buf[at + |s|..])
      {
        buf[at + k] := s[k];
        k := k + 1;
      }
    }

    method IncrementIterator(it: Iterator)
      requires Valid()
      modifies it`rawOffset
      ensures it.rawOffset == NextOffset(|Image()|, old(it.rawOffset), pagesize)
    {
      it.rawOffset := it.rawOffset + pagesize;
      if it.rawOffset > rawFilesize { it.rawOffset := rawFilesize; }
    }

    method SeekBlock(it: Iterator, block: nat)
      requires Valid() && pagesize > 0
      modifies it`rawOffset
      ensures it.rawOffset == SeekOffset(|Image()|, pagesize, block)
    {
      var b := block;
      if b * pagesize > rawFilesize { b := rawFilesize / pagesize; }
      it.rawOffset := b * pagesize;
    }

    /** `it != end()`. */
    method NotAtEnd(it: Iterator) returns (more: bool)
      requires Valid()
      ensures more == (!it.eof && (it.rawOffset != |Image()| || it.pageNumber != 0 || it.fileNumber != 0))
    {
      if it.eof { return false; }
      return it.rawOffset != rawFilesize || it.pageNumber != 0 || it.fileNumber != 0;
    }

    /** The page under the iterator.  Past the end the unsigned size wraps and the
        allocation fails; exactly at the end nothing is read and the iterator ends. */
    method SbufAlloc(it: Iterator) returns (r: Result<Sbuf, ReadFailure>)
      requires Valid() && pagesize > 0
      modifies it`eof
      ensures it.rawOffset < |Image()| ==> r == Ok(PageAt(Image(), it.rawOffset, pagesize, margin))
      ensures it.rawOffset == |Image()| ==> r == Err(EndOfImage)
      ensures it.rawOffset > |Image()| ==> r == Err(BadAlloc)
      ensures it.eof == (old(it.eof) || it.rawOffset == |Image()|)
    {
      var count := pagesize + margin;
      var thisPagesize := pagesize;
      if rawFilesize < it.rawOffset + count {
        if rawFilesize < it.rawOffset { return Err(BadAlloc); }
        count := rawFilesize - it.rawOffset;
      }
      if thisPagesize > count { thisPagesize := count; }
      var buf := new byte[count];
      var countRead := Pread(buf, 0, count, it.rawOffset);
      if countRead == 0 {
        it.eof := true;
        return Err(EndOfImage);
      }
      assert buf[..] == buf[0..count];
      return Ok(Sbuf(it.rawOffset, buf[..], thisPagesize));
    }
  }

  /** The iterator's walk from the start reads the pages of `Offsets`, in order. */
  method ReadAllPages(p: RawImage) returns (pages: seq<Sbuf>)
    requires p.Valid() && p.pagesize > 0
    ensures |pages| == MaxBlocks(|p.Image()|, p.pagesize) == |Offsets(|p.Image()|, 0, p.pagesize)|
    ensures forall k :: 0 <= k < |pages| ==>
              var off := Offsets(|p.Image()|, 0, p.pagesize)[k];
              off <= |p.Image()| && pages[k] == PageAt(p.Image(), off, p.pagesize, p.margin)
  {
    hide PageAt, Flat, Tiles, MaxBlocks, Offsets;
    var it := new Iterator();
    pages := [];
    ghost var size, all := |p.Image()|, Offsets(|p.Image()|, 0, p.pagesize);
    assert all[0..] == all;
    var more := p.NotAtEnd(it);
    while more
      invariant it.pageNumber == 0 && it.fileNumber == 0 && !it.eof && it.rawOffset <= size
      invariant more == (it.rawOffset != size)
      invariant |pages| <= |all| && all[|pages|..] == Offsets(size, it.rawOffset, p.pagesize)
      invariant forall k :: 0 <= k < |pages| ==> all[k] <= size && pages[k] == PageAt(p.Image(), all[k], p.pagesize, p.margin)
      decreases size - it.rawOffset
    {
      OffsetsStep(size, it.rawOffset, p.pagesize);
      var r := p.SbufAlloc(it);
      assert all[|pages|] == all[|pages|..][0];
      assert all[|pages| + 1..] == all[|pages|..][1..];
      pages := pages + [r.value];
      p.IncrementIterator(it);
      more := p.NotAtEnd(it);
    }
    OffsetsEnd(size, p.pagesize);
    PagesPartition(p.Image(), 0, p.pagesize);
  }

  lemma OffsetsStep(size: nat, off: nat, pagesize: nat)
    requires pagesize > 0 && off < size
    ensures var s := Offsets(size, off, pagesize);
            s != [] && s[0] == off && s[1..] == Offsets(size, NextOffset(size, off, pagesize), pagesize)
  {
  }

  lemma OffsetsEnd(size: nat, pagesize: nat)
    requires pagesize > 0
    ensures Offsets(size, size, pagesize) == []
  {
  }
}
