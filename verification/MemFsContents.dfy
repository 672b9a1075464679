/** File contents: what a read returns after writes. */
module MemFsContents {
  import opened Prelude
  import opened Wire
  import opened Forgets
  import opened DirEntries
  import opened MemFs
  import opened MemFsInvariant

  /** Byte `k` of a file as a reader sees it: zero beyond the written part. */
  function ByteAt(contents: seq<byte>, k: nat): byte {
    if k < |contents| then contents[k] else 0
  }

  /** A write changes the bytes of its range to the payload, as far as it goes, and no other byte. */
  lemma WriteChangesItsRange(contents: seq<byte>, offset: nat, size: nat, data: seq<byte>, k: nat)
    ensures ByteAt(WriteAt(contents, offset, size, data), k)
         == if offset <= k < offset + Min(size, |data|) then data[k - offset] else ByteAt(contents, k)
  {
  }

  /** A write succeeds if and only if the inode is a live regular file, the payload is whole and the
      range ends where a vector can. */
  lemma WrittenIff(fs: Fs, ino: Ino, offset: nat, size: nat, data: seq<byte>)
    ensures Step(fs, Write(ino, offset, size, data)).1.Written? <==>
            && ino in fs.inodes && fs.inodes[ino].kind.RegularFile?
            && size <= |data| && offset + size < MAX_LEN
  {
  }

  /** A read back of the written range returns the payload; a read elsewhere is not affected beyond
      the zero-filling of a hole. */
  lemma ReadAfterWrite(fs: Fs, ino: Ino, offset: nat, size: nat, data: seq<byte>, from: nat, len: nat)
    requires Step(fs, Write(ino, offset, size, data)).1.Written?
    ensures var fs' := Step(fs, Write(ino, offset, size, data)).0;
            && Step(fs', Read(ino, offset, size)).1 == Data(data[..size])
            && var r := Step(fs', Read(ino, from, len)).1;
               && r.Data?
               && |r.bytes| == Min(len, Max(0, Max(|fs.inodes[ino].kind.contents|, offset + size) - from))
               && forall k :: 0 <= k < |r.bytes| ==>
                    r.bytes[k] == if offset <= from + k < offset + size then data[from + k - offset]
                                  else ByteAt(fs.inodes[ino].kind.contents, from + k)
  {
    var contents := fs.inodes[ino].kind.contents;
    var written := WriteAt(contents, offset, size, data);
    var fs' := Step(fs, Write(ino, offset, size, data)).0;
    assert fs'.inodes[ino].kind.contents == written;
    assert ReadAt(written, offset, size) == data[..size];
    var bytes := ReadAt(written, from, len);
    forall k | 0 <= k < |bytes|
      ensures bytes[k] == if offset <= from + k < offset + size then data[from + k - offset]
                          else ByteAt(contents, from + k)
    {
      WriteChangesItsRange(contents, offset, size, data, from + k);
      assert bytes[k] == ByteAt(written, from + k);
    }
  }

  /** Writes to disjoint ranges commute. */
  lemma DisjointWritesCommute(contents: seq<byte>, a: nat, n: nat, x: seq<byte>, b: nat, m: nat, y: seq<byte>)
    requires n <= |x| && m <= |y| && (a + n <= b || b + m <= a)
    ensures WriteAt(WriteAt(contents, a, n, x), b, m, y) == WriteAt(WriteAt(contents, b, m, y), a, n, x)
  {
    var l, r := WriteAt(WriteAt(contents, a, n, x), b, m, y), WriteAt(WriteAt(contents, b, m, y), a, n, x);
    assert |l| == |r|;
    forall k | 0 <= k < |l| ensures l[k] == r[k] {
      assert l[k] == ByteAt(l, k) && r[k] == ByteAt(r, k);
      WriteChangesItsRange(WriteAt(contents, a, n, x), b, m, y, k);
      WriteChangesItsRange(WriteAt(contents, b, m, y), a, n, x, k);
      WriteChangesItsRange(contents, a, n, x, k);
      WriteChangesItsRange(contents, b, m, y, k);
    }
  }

  /** The reported size is the length of the contents after a write exactly when the write reaches
      the old end of the file: overwriting the front or the middle reports a shorter file. */
  lemma ReportedSizeIff(fs: Fs, ino: Ino, offset: nat, size: nat, data: seq<byte>)
    requires Step(fs, Write(ino, offset, size, data)).1.Written?
    ensures var node := Step(fs, Write(ino, offset, size, data)).0.inodes[ino];
            node.size == |node.kind.contents| <==> offset + size >= |fs.inodes[ino].kind.contents|
  {
  }

  lemma FirstFile()
    ensures var root := INode(ROOT, 2, 0, ROOT_COUNT, ROOT_COUNT, Dir(map[[102] := 2], None));
            DoMake(Init(), ROOT, [102], NewFile).0
            == Fs(map[ROOT := root, 2 := INode(2, 1, 0, 1, 1, RegularFile([]))], 3, map[])
  {
    assert map[][[102] := 2] == map[[102] := 2];
  }

  lemma MadeFile()
    ensures var root := INode(ROOT, 2, 0, ROOT_COUNT, ROOT_COUNT, Dir(map[[102] := 2], None));
            Exec([Make(ROOT, [102], NewFile)])
            == Fs(map[ROOT := root, 2 := INode(2, 1, 0, 1, 1, RegularFile([]))], 3, map[])
    ensures AdmissibleRun([Make(ROOT, [102], NewFile)])
  {
    ExecSnoc([], Make(ROOT, [102], NewFile));
    FirstFile();
    assert [] + [Make(ROOT, [102], NewFile)] == [Make(ROOT, [102], NewFile)];
  }

  /** Writing three bytes to a new file and then overwriting the first reports a file of one byte. */
  lemma ShortOverwrite()
    ensures var run := [Make(ROOT, [102], NewFile)] + [Write(2, 0, 3, [1, 2, 3])] + [Write(2, 0, 1, [9])];
            && AdmissibleRun(run) && 2 in Exec(run).inodes
            && Exec(run).inodes[2].size == 1 && Exec(run).inodes[2].kind == RegularFile([9, 2, 3])
  {
    var make, first, second := [Make(ROOT, [102], NewFile)], Write(2, 0, 3, [1, 2, 3]), Write(2, 0, 1, [9]);
    MadeFile();
    ExecSnoc(make, first);
    ExecSnoc(make + [first], second);
    assert WriteAt([], 0, 3, [1, 2, 3]) == [1, 2, 3];
    assert WriteAt([1, 2, 3], 0, 1, [9]) == [9, 2, 3];
  }

  // Refused requests.

  /** A write to a regular file whose payload is shorter than announced, and which either lengthens
      the file or brings bytes that are not there already. */
  predicate TearsFile(fs: Fs, req: Request) {
    && req.Write? && req.ino in fs.inodes && fs.inodes[req.ino].kind.RegularFile?
    && |req.data| < req.size && req.offset + req.size < MAX_LEN
    && var contents := fs.inodes[req.ino].kind.contents;
       req.offset + req.size > |contents| || contents[req.offset..req.offset + |req.data|] != req.data
  }

  /** A refused request changes the state if and only if it is such a write. */
  lemma RefusedStepIff(fs: Fs, req: Request)
    requires Step(fs, req).1.Fail?
    ensures Step(fs, req).0 != fs <==> TearsFile(fs, req)
  {
    if req.Write? && req.ino in fs.inodes && fs.inodes[req.ino].kind.RegularFile? {
      var node := fs.inodes[req.ino];
      WriteChangesIff(node.kind.contents, req.offset, req.size, req.data);
      var written := WriteAt(node.kind.contents, req.offset, req.size, req.data);
      assert Step(fs, req).0.inodes[req.ino] == node.(kind := RegularFile(written));
      assert node.(kind := RegularFile(node.kind.contents)) == node;
      assert written == node.kind.contents ==> Step(fs, req).0.inodes == fs.inodes;
    }
  }

  lemma WriteChangesIff(contents: seq<byte>, offset: nat, size: nat, data: seq<byte>)
    requires |data| < size
    ensures WriteAt(contents, offset, size, data) != contents <==>
            offset + size > |contents| || contents[offset..offset + |data|] != data
  {
    if offset + size <= |contents| {
      var written := WriteAt(contents, offset, size, data);
      assert written[offset..offset + |data|] == data;
      if contents[offset..offset + |data|] == data {
        assert contents == contents[..offset] + contents[offset..offset + |data|] + contents[offset + |data|..];
      }
    }
  }

  /** A write of four bytes that carries one fails, and leaves four bytes in the file. */
  lemma TornWrite()
    ensures var make, write := [Make(ROOT, [102], NewFile)], Write(2, 0, 4, [7]);
            && AdmissibleRun(make + [write]) && Step(Exec(make), write).1 == Fail(IO)
            && TearsFile(Exec(make), write)
            && 2 in Exec(make + [write]).inodes
            && Exec(make + [write]).inodes[2].kind == RegularFile([7, 0, 0, 0])
  {
    var make, write := [Make(ROOT, [102], NewFile)], Write(2, 0, 4, [7]);
    MadeFile();
    ExecSnoc(make, write);
    assert WriteAt([], 0, 4, [7]) == [7, 0, 0, 0];
  }
}
