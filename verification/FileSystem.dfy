/** The read-only file system: directory lookup, `read_data`, and the streams built on it. */
module FileSystem {
  import opened Bytes

  const BLOCK_SIZE := 4096
  const NAME_LEN := 32
  const MAX_BLOCKS := 1023

  datatype Dentry = Dentry(name: seq<char>, filetype: nat, inode: nat)
  datatype Inode = Inode(length: nat, blockNums: seq<nat>)
  datatype Image = Image(dentries: seq<Dentry>, inodes: seq<Inode>, blocks: seq<seq<char>>)

  /** Every file has room for its last block index in its inode, and every index a read can use names a block. */
  ghost predicate WellFormedInode(img: Image, f: Inode) {
    && |f.blockNums| == MAX_BLOCKS
    && f.length / BLOCK_SIZE < MAX_BLOCKS
    && forall b :: 0 <= b <= f.length / BLOCK_SIZE ==> f.blockNums[b] < |img.blocks|
  }

  ghost predicate WellFormed(img: Image) {
    && (forall b :: 0 <= b < |img.blocks| ==> |img.blocks[b]| == BLOCK_SIZE)
    && (forall f :: f in img.inodes ==> WellFormedInode(img, f))
    && (forall d :: d in img.dentries ==> |d.name| == NAME_LEN)
  }

  // ---------------------------------------------------------------- read_data

  /** The end of the block that holds the byte just past the end of a file of this length. */
  function BlockEnd(length: nat): (end: nat)
    ensures length < end <= length + BLOCK_SIZE && end % BLOCK_SIZE == 0
  {
    (length / BLOCK_SIZE + 1) * BLOCK_SIZE
  }

  /** The bytes of the listed blocks, end to end. */
  function BlockChain(img: Image, nums: seq<nat>): (s: seq<char>)
    requires forall b :: 0 <= b < |img.blocks| ==> |img.blocks[b]| == BLOCK_SIZE
    requires forall k :: 0 <= k < |nums| ==> nums[k] < |img.blocks|
    ensures |s| == |nums| * BLOCK_SIZE
  {
    if nums == [] then [] else BlockChain(img, nums[..|nums| - 1]) + img.blocks[nums[|nums| - 1]]
  }

  /** Everything a read of this file can reach: its bytes and the rest of its last block. */
  function Stored(img: Image, inode: nat): (s: seq<char>)
    requires WellFormed(img) && inode < |img.inodes|
    ensures |s| == BlockEnd(img.inodes[inode].length)
  {
    var f := img.inodes[inode];
    assert WellFormedInode(img, f);
    BlockChain(img, f.blockNums[..f.length / BLOCK_SIZE + 1])
  }

  /** A file as the flat sequence of its bytes. */
  function Contents(img: Image, inode: nat): (s: seq<char>)
    requires WellFormed(img) && inode < |img.inodes|
    ensures |s| == img.inodes[inode].length
  {
    Stored(img, inode)[..img.inodes[inode].length]
  }

  /** How many bytes `read_data` copies. */
  function ReadCount(length: nat, offset: nat, want: nat): nat {
    if offset > length then 0 else Min(want, BlockEnd(length) - offset)
  }

  /** Up to the end of the block after the file's last byte, if the offset is not past the file; nothing if it is. */
  lemma ReadCountIs(length: nat, offset: nat, want: nat)
    ensures offset > length ==> ReadCount(length, offset, want) == 0
    ensures offset <= length ==>
              var end := (length / 4096 + 1) * 4096;
              ReadCount(length, offset, want) == if want <= end - offset then want else end - offset
  {
  }

  /** Walking blocks by index and offset finds the byte the flat view has there. */
  lemma {:induction false} BlockChainAt(img: Image, nums: seq<nat>, k: nat, a: nat)
    requires forall b :: 0 <= b < |img.blocks| ==> |img.blocks[b]| == BLOCK_SIZE
    requires forall j :: 0 <= j < |nums| ==> nums[j] < |img.blocks|
    requires k < |nums| && a < BLOCK_SIZE
    ensures k * BLOCK_SIZE + a < |nums| * BLOCK_SIZE
    ensures BlockChain(img, nums)[k * BLOCK_SIZE + a] == img.blocks[nums[k]][a]
  {
    if k < |nums| - 1 {
      BlockChainAt(img, nums[..|nums| - 1], k, a);
    }
  }

  /** The byte at offset `a` of a file's `k`-th block. */
  lemma StoredAt(img: Image, inode: nat, k: nat, a: nat)
    requires WellFormed(img) && inode < |img.inodes|
    requires k <= img.inodes[inode].length / BLOCK_SIZE && a < BLOCK_SIZE
    ensures var f := img.inodes[inode];
            && k < |f.blockNums| && f.blockNums[k] < |img.blocks| && |img.blocks[f.blockNums[k]]| == BLOCK_SIZE
            && k * BLOCK_SIZE + a < |Stored(img, inode)|
            && Stored(img, inode)[k * BLOCK_SIZE + a] == img.blocks[f.blockNums[k]][a]
  {
    var f := img.inodes[inode];
    assert WellFormedInode(img, f);
    BlockChainAt(img, f.blockNums[..f.length / BLOCK_SIZE + 1], k, a);
  }

  method ReadData(img: Image, inode: nat, offset: nat, buf: array<char>, start: nat, length: nat) returns (n: int)
    requires WellFormed(img)
    requires inode < |img.inodes| ==> start + ReadCount(img.inodes[inode].length, offset, length) <= buf.Length
    modifies buf
    ensures n == -1 <==> inode >= |img.inodes|
    ensures n == -1 ==> buf[..] == old(buf[..])
    ensures n != -1 ==> n == ReadCount(img.inodes[inode].length, offset, length)
    ensures n == 0 ==> buf[..] == old(buf[..])
    ensures n > 0 ==> offset + n <= BlockEnd(img.inodes[inode].length)
                      && buf[..] == Splice(old(buf[..]), start, Stored(img, inode)[offset..offset + n])
  {
    if inode >= |img.inodes| {
      return -1;
    }
    var file := img.inodes[inode];
    if offset > file.length {
      return 0;
    }
    hide WellFormed, WellFormedInode, Stored, BlockChain, Splice;
    StoredAt(img, inode, offset / BLOCK_SIZE, 0);
    var blockIndex := offset / BLOCK_SIZE;
    var addressInBlock := offset % BLOCK_SIZE;
    var blockNum := file.blockNums[blockIndex];
    ghost var stored := Stored(img, inode);
    ghost var before := buf[..];
    n := 0;
    var i := 0;
    while i < length
      invariant 0 <= i == n <= ReadCount(file.length, offset, length)
      invariant 0 <= addressInBlock <= BLOCK_SIZE
      invariant offset + i == blockIndex * BLOCK_SIZE + addressInBlock
      invariant 0 <= blockIndex <= file.length / BLOCK_SIZE
      invariant blockIndex < |file.blockNums| && blockNum == file.blockNums[blockIndex]
      invariant forall j :: start <= j < start + n ==> buf[j] == stored[offset + (j - start)]
      invariant forall j :: 0 <= j < start || start + n <= j < buf.Length ==> buf[j] == before[j]
    {
      if addressInBlock == BLOCK_SIZE {
        if n > file.length - offset {
          break;
        }
        StoredAt(img, inode, blockIndex + 1, 0);
        blockIndex := blockIndex + 1;
        blockNum := file.blockNums[blockIndex];
        addressInBlock := 0;
      }
      StoredAt(img, inode, blockIndex, addressInBlock);
      buf[start + i] := img.blocks[blockNum][addressInBlock];
      n := n + 1;
      addressInBlock := addressInBlock + 1;
      i := i + 1;
    }
    if n > 0 {
      SpliceIs(buf[..], before, start, stored, offset, n);
    } else {
      assert buf[..] == before;
    }
  }

  lemma SpliceIs(after: seq<char>, before: seq<char>, start: nat, source: seq<char>, offset: nat, n: nat)
    requires |after| == |before| && start + n <= |before| && offset + n <= |source|
    requires forall j :: start <= j < start + n ==> after[j] == source[offset + (j - start)]
    requires forall j :: 0 <= j < start || start + n <= j < |before| ==> after[j] == before[j]
    ensures after == Splice(before, start, source[offset..offset + n])
  {
  }

  /** The unclamped load of a program gets the whole file and runs past its end by at most one block. */
  lemma LoadGetsWholeFile(img: Image, inode: nat, want: nat)
    requires WellFormed(img) && inode < |img.inodes| && want >= MAX_BLOCKS * BLOCK_SIZE
    ensures var n := ReadCount(img.inodes[inode].length, 0, want);
            && img.inodes[inode].length < n <= img.inodes[inode].length + BLOCK_SIZE
            && n == |Stored(img, inode)| && Contents(img, inode) <= Stored(img, inode)
  {
    assert WellFormedInode(img, img.inodes[inode]);
  }

  /** The user page holds a program from 0x48000 on, the rest of its 4 MB. */
  const USER_PAGE := 0x40_0000
  const IMAGE_OFFSET := 0x4_8000

  /** The unclamped load stays in the page exactly when the file is shorter than what is left of it. */
  lemma LoadStaysInPageIff(img: Image, inode: nat)
    requires WellFormed(img) && inode < |img.inodes|
    ensures IMAGE_OFFSET + ReadCount(img.inodes[inode].length, 0, USER_PAGE) <= USER_PAGE
       <==> img.inodes[inode].length < 0x3B_8000
  {
    LoadGetsWholeFile(img, inode, USER_PAGE);
  }

  /** A file of 952 whole blocks would just fit, but the load takes a block more; one of a byte less fills the page. */
  lemma LoadPastThePage()
    ensures IMAGE_OFFSET + ReadCount(0x3B_8000, 0, USER_PAGE) == USER_PAGE + BLOCK_SIZE
    ensures IMAGE_OFFSET + ReadCount(0x3B_7FFF, 0, USER_PAGE) == USER_PAGE
  {
  }

  // ---------------------------------------------------------------- read_file

  /** What one read at a position passes on. */
  function ReadChunk(contents: seq<char>, position: nat, nbytes: nat): (s: seq<char>)
    requires position <= |contents|
    ensures |s| == Min(nbytes, |contents| - position)
  {
    contents[position..position + Min(nbytes, |contents| - position)]
  }

  /** The chunks a sequence of reads passes on, starting at a position. */
  function ReadChunks(contents: seq<char>, position: nat, sizes: seq<nat>): seq<seq<char>>
    requires position <= |contents|
    decreases |sizes|
  {
    if sizes == [] then []
    else
      var chunk := ReadChunk(contents, position, sizes[0]);
      [chunk] + ReadChunks(contents, position + |chunk|, sizes[1..])
  }

  function Flatten(chunks: seq<seq<char>>): seq<char> {
    if chunks == [] then [] else chunks[0] + Flatten(chunks[1..])
  }

  function Sum(sizes: seq<nat>): nat {
    if sizes == [] then 0 else sizes[0] + Sum(sizes[1..])
  }

  /** Reads of any sizes pass on exactly the next bytes of the file: nothing is lost, repeated or reordered. */
  lemma {:induction false} ReadsConcatenate(contents: seq<char>, position: nat, sizes: seq<nat>)
    requires position <= |contents|
    ensures Flatten(ReadChunks(contents, position, sizes))
         == contents[position..Min(|contents|, position + Sum(sizes))]
    decreases |sizes|
  {
    if sizes != [] {
      var chunk := ReadChunk(contents, position, sizes[0]);
      ReadsConcatenate(contents, position + |chunk|, sizes[1..]);
    }
  }

  /** An entry of a process's descriptor array that names a regular file. */
  class OpenFile {
    const img: Image
    const inode: nat
    var position: nat
    var isOpen: bool

    ghost predicate Valid()
      reads this
    {
      WellFormed(img) && inode < |img.inodes| && position <= img.inodes[inode].length
    }

    ghost function Bytes(): (s: seq<char>)
      requires WellFormed(img) && inode < |img.inodes|
    {
      Contents(img, inode)
    }

    constructor (img: Image, inode: nat)
      requires WellFormed(img) && inode < |img.inodes|
      ensures Valid() && isOpen && position == 0 && this.img == img && this.inode == inode
      ensures Bytes() == Contents(img, inode)
    {
      this.img, this.inode, position, isOpen := img, inode, 0, true;
    }

    method Read(buf: array<char>, start: nat, nbytes: nat) returns (n: int)
      requires Valid()
      requires start + nbytes <= buf.Length
      modifies `position, buf
      ensures Valid()
      ensures n >= -1 && (n == -1 <==> !isOpen)
      ensures n == -1 ==> buf[..] == old(buf[..]) && position == old(position)
      ensures n >= 0 ==>
                var chunk := ReadChunk(Bytes(), old(position), nbytes);
                && n == |chunk|
                && position == old(position) + n
                && buf[..] == Splice(old(buf[..]), start, chunk)
    {
      if !isOpen {
        return -1;
      }
      var length := img.inodes[inode].length;
      var want := nbytes;
      if position + nbytes >= length {
        want := length - position;
      }
      ghost var chunk := ReadChunk(Bytes(), position, nbytes);
      assert chunk == Stored(img, inode)[position..position + |chunk|];
      assert ReadCount(length, position, want) == |chunk|;
      hide Stored, Contents, ReadChunk, WellFormed, WellFormedInode, Splice;
      n := ReadData(img, inode, position, buf, start, want);
      if n == 0 {
        assert Splice(old(buf[..]), start, chunk) == old(buf[..]);
      }
      position := position + n;
    }

    method Close() returns (r: int)
      requires Valid()
      modifies this
      ensures Valid() && !isOpen
      ensures r == if old(isOpen) then 0 else -1
      ensures position == if old(isOpen) then 0 else old(position)
    {
      if !isOpen {
        return -1;
      }
      isOpen, position := false, 0;
      r := 0;
    }
  }

  /** The read/write loop of `cat`: it stops, having passed on the rest of the file. */
  method Cat(f: OpenFile) returns (code: int, out: seq<char>)
    requires f.Valid()
    modifies f`position
    ensures f.Valid()
    ensures f.isOpen ==> code == 0 && out == f.Bytes()[old(f.position)..] && f.position == |f.Bytes()|
    ensures !f.isOpen ==> code == 3 && out == []
  {
    var buf := new char[1024];
    out := [];
    while true
      invariant f.Valid() && old(f.position) <= f.position
      invariant out == f.Bytes()[old(f.position)..f.position]
      invariant !f.isOpen ==> out == []
      decreases |f.Bytes()| - f.position
    {
      var cnt := f.Read(buf, 0, 1024);
      if cnt == 0 { break; }
      if cnt == -1 { return 3, out; }
      out := out + buf[..cnt];
    }
    code := 0;
  }

  // ---------------------------------------------------------------- the directory

  /** Compare two C strings over at most `n` bytes, as the kernel's `strncmp` does. */
  method StrNCmp(s1: seq<char>, s2: seq<char>, n: nat) returns (r: int)
    requires (NUL in s1 || n <= |s1|) && n <= |s2|
    ensures r == 0 <==> CString(s1[..Min(n, |s1|)]) == CString(s2[..n])
  {
    var i := 0;
    while i < n
      invariant 0 <= i <= n && i <= |s1|
      invariant s1[..i] == s2[..i] && NUL !in s1[..i]
    {
      assert NUL in s1 ==> NUL in s1[..i] || NUL in s1[i..];
      if s1[i] != s2[i] || s1[i] == NUL {
        assert s1[..Min(n, |s1|)][..i] == s1[..i] && s2[..n][..i] == s2[..i];
        PrefixesDiffer(s1[..Min(n, |s1|)], s2[..n], i);
        return s1[i] as int - s2[i] as int;
      }
      i := i + 1;
    }
    r := 0;
    assert s1[..Min(n, |s1|)] == s1[..i] == s2[..n];
  }

  /** Where two strings first differ, or both end. */
  lemma PrefixesDiffer(a: seq<char>, b: seq<char>, i: nat)
    requires i < |a| && i < |b| && a[..i] == b[..i] && NUL !in a[..i]
    requires a[i] != b[i] || a[i] == NUL
    ensures a[i] == b[i] <==> CString(a) == CString(b)
  {
    CStringReaches(a, i);
    CStringReaches(b, i);
  }

  lemma {:induction false} CStringReaches(buf: seq<char>, i: nat)
    requires i < |buf| && NUL !in buf[..i]
    ensures buf[..i] <= CString(buf)
    ensures buf[i] == NUL ==> CString(buf) == buf[..i]
    ensures buf[i] != NUL ==> |CString(buf)| > i && CString(buf)[i] == buf[i]
  {
    if i > 0 {
      assert buf[0] == buf[..i][0];
      assert buf[1..][..i - 1] == buf[..i][1..];
      CStringReaches(buf[1..], i - 1);
    }
  }

  /** The name an entry is known by: its field's bytes before the first NUL, or all of them. */
  function NameOf(d: Dentry): (name: seq<char>)
    ensures name <= d.name && NUL !in name && (|name| < |d.name| ==> d.name[|name|] == '\0')
  {
    CString(d.name)
  }

  /** The index of the last entry of this name, or -1. */
  function LastNamed(entries: seq<Dentry>, name: seq<char>): (index: int)
    ensures -1 <= index < |entries|
    ensures index >= 0 ==> NameOf(entries[index]) == name
    ensures forall k :: index < k < |entries| ==> NameOf(entries[k]) != name
  {
    if entries == [] then -1
    else if NameOf(entries[|entries| - 1]) == name then |entries| - 1
    else LastNamed(entries[..|entries| - 1], name)
  }

  /** A name over 32 bytes matches nothing; any other finds the last entry of that name. */
  method FindDentry(img: Image, fname: seq<char>) returns (index: int)
    requires WellFormed(img) && NUL in fname
    ensures index == LastNamed(img.dentries, CString(fname))
  {
    index := -1;
    if |CString(fname)| > NAME_LEN {
      assert forall d :: d in img.dentries ==> |NameOf(d)| <= NAME_LEN;
      return;
    }
    CStringWithin(fname, NAME_LEN);
    hide CString;
    var i := 0;
    while i < |img.dentries|
      invariant 0 <= i <= |img.dentries|
      invariant index == LastNamed(img.dentries[..i], CString(fname))
    {
      var entry := img.dentries[i];
      assert entry in img.dentries;
      var order := StrNCmp(fname, entry.name, NAME_LEN);
      assert entry.name[..NAME_LEN] == entry.name;
      assert img.dentries[..i + 1][..i] == img.dentries[..i];
      if order == 0 {
        index := i;
      }
      i := i + 1;
    }
    assert img.dentries[..i] == img.dentries;
  }

  lemma {:induction false} CStringWithin(s: seq<char>, n: nat)
    requires |CString(s)| <= n
    ensures CString(s[..Min(n, |s|)]) == CString(s)
  {
    if s != [] && s[0] != NUL {
      CStringWithin(s[1..], n - 1);
      assert s[..Min(n, |s|)][1..] == s[1..][..Min(n, |s|) - 1];
    }
  }

  /** With unique names the entry found is the only one of its name. */
  lemma UniqueNameFound(entries: seq<Dentry>, k: nat)
    requires forall i, j :: 0 <= i < j < |entries| ==> NameOf(entries[i]) != NameOf(entries[j])
    requires k < |entries|
    ensures LastNamed(entries, NameOf(entries[k])) == k
  {
  }

  /** An entry of a process's descriptor array that names the directory. */
  class OpenDirectory {
    const img: Image
    var position: nat
    var isOpen: bool

    ghost predicate Valid()
      reads this
    {
      WellFormed(img) && position <= |img.dentries|
    }

    constructor (img: Image)
      requires WellFormed(img)
      ensures Valid() && isOpen && position == 0 && this.img == img
    {
      this.img, position, isOpen := img, 0, true;
    }

    /** One name a call, then 0 at the end, which rewinds. The size the caller asks for is ignored. */
    method Read(buf: array<char>) returns (n: int)
      requires Valid() && buf.Length >= NAME_LEN
      modifies `position, buf
      ensures Valid() && n >= -1
      ensures n == -1 <==> !isOpen
      ensures n == -1 ==> position == old(position) && buf[..] == old(buf[..])
      ensures isOpen && old(position) == |img.dentries| ==> n == 0 && position == 0 && buf[..] == old(buf[..])
      ensures isOpen && old(position) < |img.dentries| ==>
                var name := NameOf(img.dentries[old(position)]);
                n == |name| <= NAME_LEN && position == old(position) + 1 && buf[..] == Splice(old(buf[..]), 0, name)
    {
      if !isOpen {
        return -1;
      }
      if position >= |img.dentries| {
        position := 0;
        return 0;
      }
      var entry := img.dentries[position];
      assert entry in img.dentries;
      var name := entry.name;
      n := 0;
      var j := 0;
      while j < |CString(name)|
        invariant 0 <= j == n <= |CString(name)|
        invariant forall k :: 0 <= k < buf.Length ==> buf[k] == if k < j then name[k] else old(buf[k])
        invariant position == old(position)
      {
        buf[j] := name[j];
        n := n + 1;
        j := j + 1;
      }
      assert buf[..] == Splice(old(buf[..]), 0, CString(name));
      position := position + 1;
    }
  }

  /** The names of some entries, one to a line. */
  function Listing(entries: seq<Dentry>): seq<char> {
    if entries == [] then [] else Listing(entries[..|entries| - 1]) + NameOf(entries[|entries| - 1]) + [NEWLINE]
  }

  /** The listing goes through the directory in order, a name and a newline for each entry. */
  lemma {:induction false} ListingOfSum(a: seq<Dentry>, b: seq<Dentry>)
    ensures Listing(a + b) == Listing(a) + Listing(b)
    decreases |b|
  {
    hide NameOf, Listing;
    if b == [] {
      assert a + b == a;
      ListingOfNone();
    } else {
      var front, d := b[..|b| - 1], b[|b| - 1];
      ListingOfSum(a, front);
      ListingOfMore(a + front, d);
      ListingOfMore(front, d);
      assert a + b == a + front + [d] && b == front + [d];
    }
  }

  lemma ListingOfNone()
    ensures Listing([]) == []
  {
  }

  lemma ListingOfMore(a: seq<Dentry>, d: Dentry)
    ensures Listing(a + [d]) == Listing(a) + NameOf(d) + ['\n']
  {
    assert (a + [d])[..|a|] == a;
  }

  lemma ListingOfOne(d: Dentry)
    ensures Listing([d]) == NameOf(d) + ['\n'] && Listing([]) == []
  {
    assert Listing([]) == [];
    assert [d][..0] == [];
  }

  /** The index of the first entry with an empty name, or the number of entries. */
  function FirstEmpty(entries: seq<Dentry>): (k: nat)
    ensures k <= |entries| && forall i :: 0 <= i < k ==> NameOf(entries[i]) != []
    ensures k < |entries| ==> NameOf(entries[k]) == []
  {
    if entries == [] || NameOf(entries[0]) == [] then 0 else 1 + FirstEmpty(entries[1..])
  }

  lemma FirstEmptyIs(entries: seq<Dentry>, k: nat)
    requires k <= |entries| && forall i :: 0 <= i < k ==> NameOf(entries[i]) != []
    requires k < |entries| ==> NameOf(entries[k]) == []
    ensures FirstEmpty(entries) == k
  {
  }

  /** A name read into the buffer and ended with a newline is the listing's next line. */
  lemma ListingGoesOn(entries: seq<Dentry>, k: nat, before: seq<char>, buf: seq<char>)
    requires k < |entries| && var name := NameOf(entries[k]);
             |name| < |before| && buf == Splice(before, 0, name)[|name| := NEWLINE]
    ensures var line := buf[..|NameOf(entries[k])| + 1];
            Listing(entries[..k]) + line == Listing(entries[..k + 1])
  {
    hide Listing, NameOf, Splice;
    var name := NameOf(entries[k]);
    ListingOfMore(entries[..k], entries[k]);
    assert entries[..k + 1] == entries[..k] + [entries[k]];
    assert buf[..|name| + 1] == name + [NEWLINE];
  }

  /**
   * `ls` prints the names in order, a line each. An empty name reads as the end of the directory and cuts the listing
   * there.
   */
  method Ls(d: OpenDirectory) returns (code: int, out: seq<char>)
    requires d.Valid() && d.isOpen && d.position == 0
    modifies d`position
    ensures d.Valid() && code == 0
    ensures out == Listing(d.img.dentries[..FirstEmpty(d.img.dentries)])
    ensures d.position == if FirstEmpty(d.img.dentries) == |d.img.dentries| then 0 else FirstEmpty(d.img.dentries) + 1
  {
    ghost var entries, stop := d.img.dentries, FirstEmpty(d.img.dentries);
    var buf := new char[33];
    out := [];
    ghost var shown := 0;
    hide Listing, NameOf, FirstEmpty, WellFormed, Splice;
    ListingOfNone();
    while true
      invariant d.Valid() && d.position == shown
      invariant out == Listing(entries[..shown])
      invariant shown <= stop
      decreases |entries| - shown
    {
      ghost var before := buf[..];
      var cnt := d.Read(buf);
      if cnt == 0 {
        assert shown == stop;
        break;
      }
      assert cnt == |NameOf(entries[shown])|;
      buf[cnt] := NEWLINE;
      ListingGoesOn(entries, shown, before, buf[..]);
      out := out + buf[..cnt + 1];
      shown := shown + 1;
    }
    code := 0;
  }

  /** The listing leaves no name out exactly when none is empty. */
  lemma {:induction false} ListingCompleteIff(entries: seq<Dentry>)
    ensures Listing(entries[..FirstEmpty(entries)]) == Listing(entries)
       <==> forall e :: e in entries ==> NameOf(e) != []
  {
    var k := FirstEmpty(entries);
    if k < |entries| {
      assert entries[k] in entries;
      ListingGrows(entries, k);
    } else {
      assert entries[..k] == entries;
    }
  }

  lemma {:induction false} ListingGrows(entries: seq<Dentry>, k: nat)
    requires k < |entries|
    ensures |Listing(entries[..k])| < |Listing(entries)|
    decreases |entries|
  {
    var front := entries[..|entries| - 1];
    if k < |front| {
      ListingGrows(front, k);
      assert front[..k] == entries[..k];
    }
  }

  /** A directory of three entries of which the second has no name: `ls` shows one. */
  lemma EmptyNameCuts(a: Dentry, empty: Dentry, b: Dentry)
    requires NameOf(a) != [] && NameOf(empty) == []
    ensures FirstEmpty([a, empty, b]) == 1
    ensures Listing([a, empty, b][..1]) == NameOf(a) + [NEWLINE]
  {
    FirstEmptyIs([a, empty, b], 1);
    assert [a, empty, b][..1] == [a];
    assert Listing([a]) == Listing([]) + NameOf(a) + [NEWLINE];
  }
}
