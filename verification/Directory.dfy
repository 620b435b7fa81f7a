/** The directory of the file system: names of at most 32 bytes, looked up and listed. */
module Directory {
  import opened FileSystem
  import opened Machine
  import opened Options

  const FILE_NAME_SIZE := 32
  const MAX_ENTRIES := 63

  /** The C string at the front of a byte sequence, cut at `n` bytes. */
  function Cut(s: seq<char>, n: nat): (r: seq<char>)
    ensures |r| <= n
  {
    if n == 0 || s == [] || s[0] == NUL then [] else [s[0]] + Cut(s[1..], n - 1)
  }

  /** It is the longest front of at most `n` bytes without a NUL. */
  lemma {:induction false} CutIsLongest(s: seq<char>, n: nat)
    ensures var r := Cut(s, n);
            && r <= s && |r| <= n && '\0' !in r
            && (|r| < n && |r| < |s| ==> s[|r|] == '\0')
    decreases n
  {
    if n == 0 || s == [] || s[0] == NUL {
    } else {
      CutIsLongest(s[1..], n - 1);
    }
  }

  /** Reading the string stays inside the sequence. */
  predicate Readable(s: seq<char>, n: nat) {
    |s| >= n || NUL in s
  }

  predicate WellFormedDirectory(img: Image) {
    && WellFormed(img) && 1 <= |img.entries| <= MAX_ENTRIES
    && forall i :: 0 <= i < |img.entries| ==>
                     |img.entries[i].name| == FILE_NAME_SIZE && -INT_LIMIT <= img.entries[i].inodeId < INT_LIMIT
  }

  /** A common front that is not empty is a common first byte and a common front of the rests. */
  lemma FrontTail(a: seq<char>, b: seq<char>, i: nat)
    requires 0 < i <= |a| && i <= |b| && a[..i] == b[..i] && NUL !in a[..i]
    ensures a[0] == b[0] != NUL
    ensures a[1..][..i - 1] == b[1..][..i - 1] && NUL !in a[1..][..i - 1]
    ensures a[1..][i - 1..] == a[i..] && b[1..][i - 1..] == b[i..]
  {
    assert a[0] == a[..i][0] == b[..i][0];
    assert a[1..][..i - 1] == a[..i][1..] && b[1..][..i - 1] == b[..i][1..];
    assert forall c :: c in a[..i][1..] ==> c in a[..i];
  }

  lemma CutCons(a: seq<char>, b: seq<char>, n: nat)
    requires n > 0 && a != [] && b != [] && a[0] == b[0] != NUL
    ensures Cut(a, n) == Cut(b, n) <==> Cut(a[1..], n - 1) == Cut(b[1..], n - 1)
  {
    assert Cut(a, n)[1..] == Cut(a[1..], n - 1) && Cut(b, n)[1..] == Cut(b[1..], n - 1);
  }

  /** A common front of both strings does not decide whether they are equal. */
  lemma {:induction false} CutStep(a: seq<char>, b: seq<char>, n: nat, i: nat)
    requires i <= n && i <= |a| && i <= |b| && a[..i] == b[..i] && NUL !in a[..i]
    ensures Cut(a, n) == Cut(b, n) <==> Cut(a[i..], n - i) == Cut(b[i..], n - i)
    decreases i
  {
    if i == 0 {
      assert a[0..] == a && b[0..] == b;
    } else {
      FrontTail(a, b, i);
      CutCons(a, b, n);
      CutStep(a[1..], b[1..], n - 1, i - 1);
    }
  }

  /** `strncmp`: 0 exactly when the strings, cut at `n` bytes, are equal. */
  method Strncmp(a: seq<char>, b: seq<char>, n: nat) returns (r: int)
    requires Readable(a, n) && Readable(b, n)
    ensures r == 0 <==> Cut(a, n) == Cut(b, n)
  {
    var i := 0;
    while i < n
      invariant 0 <= i <= n && i <= |a| && i <= |b|
      invariant a[..i] == b[..i] && NUL !in a[..i]
    {
      CutStep(a, b, n, i);
      assert NUL in a ==> i < |a|;
      assert NUL in b ==> i < |b|;
      assert Cut(a[i..], n - i) == if a[i] == NUL then [] else [a[i]] + Cut(a[i..][1..], n - i - 1);
      assert Cut(b[i..], n - i) == if b[i] == NUL then [] else [b[i]] + Cut(b[i..][1..], n - i - 1);
      if a[i] != b[i] || a[i] == NUL {
        assert a[i] != b[i] && a[i] != NUL && b[i] != NUL ==> Cut(a[i..], n - i)[0] != Cut(b[i..], n - i)[0];
        return a[i] as int - b[i] as int;
      }
      i := i + 1;
    }
    CutStep(a, b, n, n);
    return 0;
  }

  /** The position of the first entry with the wanted name, or the number of entries. */
  function FindEntry(entries: seq<Dentry>, name: seq<char>): (i: nat)
    ensures i <= |entries|
    ensures forall j :: 0 <= j < i ==> Cut(entries[j].name, 32) != Cut(name, 32)
    ensures i < |entries| ==> Cut(entries[i].name, 32) == Cut(name, 32)
  {
    if entries == [] || Cut(entries[0].name, FILE_NAME_SIZE) == Cut(name, FILE_NAME_SIZE) then 0
    else 1 + FindEntry(entries[1..], name)
  }

  function Lookup(img: Image, name: seq<char>): Option<Dentry> {
    var i := FindEntry(img.entries, name);
    if i < |img.entries| then Some(img.entries[i]) else None
  }

  /** A name is looked up to the first entry whose name agrees with it in the first 32 bytes. */
  lemma LookupIsFirst(img: Image, name: seq<char>, i: nat)
    requires i < |img.entries| && Cut(img.entries[i].name, 32) == Cut(name, 32)
    requires forall j :: 0 <= j < i ==> Cut(img.entries[j].name, 32) != Cut(name, 32)
    ensures Lookup(img, name) == Some(img.entries[i])
  {
    assert FindEntry(img.entries, name) == i;
  }

  /** `read_dentry_by_name`. */
  method ReadDentryByName(img: Image, name: seq<char>) returns (r: Option<Dentry>)
    requires WellFormedDirectory(img) && Readable(name, FILE_NAME_SIZE)
    ensures r == Lookup(img, name)
  {
    var i := 0;
    assert img.entries[0..] == img.entries;
    while i < |img.entries|
      invariant 0 <= i <= |img.entries|
      invariant FindEntry(img.entries, name) == i + FindEntry(img.entries[i..], name)
    {
      var differ := Strncmp(img.entries[i].name, name, FILE_NAME_SIZE);
      if differ == 0 {
        return Some(img.entries[i]);
      }
      assert img.entries[i..][1..] == img.entries[i + 1..];
      i := i + 1;
    }
    return None;
  }

  /** `read_dentry_by_index`. */
  function EntryAt(img: Image, index: int): Option<Dentry> {
    if 0 <= index < |img.entries| then Some(img.entries[index]) else None
  }

  /** One `dir_read`: the name it copies, the position after it and what it returns. */
  datatype Listed = Listed(name: Option<seq<char>>, position: int, count: int)

  function DirRead(img: Image, position: int, nbytes: int): Listed {
    match EntryAt(img, position)
    case None => Listed(None, position, 0)
    case Some(entry) =>
      Listed(Some(entry.name), position + 1, if position + 1 < MAX_ENTRIES then nbytes else 0)
  }

  /** The names that reads of `nbytes` bytes deliver from a position until one returns 0. */
  function Listing(img: Image, position: nat, nbytes: int): seq<seq<char>>
    decreases |img.entries| - position
  {
    var r := DirRead(img, position, nbytes);
    if r.count == 0 || r.name.None? then [] else [r.name.value] + Listing(img, position + 1, nbytes)
  }

  function Names(entries: seq<Dentry>): (names: seq<seq<char>>)
    ensures |names| == |entries|
    ensures forall i :: 0 <= i < |names| ==> names[i] == entries[i].name
  {
    seq(|entries|, i requires 0 <= i < |entries| => entries[i].name)
  }

  lemma {:induction false} ListingFrom(img: Image, position: nat, nbytes: int)
    requires |img.entries| <= MAX_ENTRIES && position <= |img.entries| && nbytes > 0
    ensures var full := |img.entries| == MAX_ENTRIES && position < MAX_ENTRIES;
            Listing(img, position, nbytes) ==
            Names(img.entries)[position..if full then MAX_ENTRIES - 1 else |img.entries|]
    decreases |img.entries| - position
  {
    if position < |img.entries| && position + 1 < MAX_ENTRIES {
      ListingFrom(img, position + 1, nbytes);
    }
  }

  /** Listing a directory yields every name once and in order exactly when it is not completely full:
      the read of the 63rd name returns 0. */
  lemma ListingIsComplete(img: Image, nbytes: int)
    requires WellFormedDirectory(img) && nbytes > 0
    ensures Listing(img, 0, nbytes) == Names(img.entries) <==> |img.entries| < 63
    ensures |img.entries| == 63 ==> Listing(img, 0, nbytes) == Names(img.entries)[..62]
  {
    ListingFrom(img, 0, nbytes);
    assert |img.entries| < MAX_ENTRIES ==> Names(img.entries)[0..|img.entries|] == Names(img.entries);
  }
}
