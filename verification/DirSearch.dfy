/** Looking a name up in a directory: exfat_find_dir_entry of
    fs/exfat-linux/dir.c on the directory's entries, and what a directory is. */
module DirSearch {
  import opened Common

  const NAME_LEN: nat := 15

  /** The kinds of directory entries that the search tells apart. */
  datatype Dentry =
    | Unused
    | Deleted
    | FileEntry(isDir: bool, numExt: nat)
    | StreamEntry(hash: nat, nameLen: nat)
    | NameEntry(chars: seq<nat>)
    | Secondary
    | Primary

  /** What was found: where the set begins, and the entry after it. */
  datatype Hit = Hit(pos: int, end: nat)

  datatype Wanted = Any | OnlyFiles | OnlyDirs

  /** What is looked for. Names are compared after upcasing each character. */
  datatype Query = Query(name: seq<nat>, hash: nat, wanted: Wanted)

  type Upcase = nat -> nat
  type NameHash = seq<nat> -> nat

  function Up(up: Upcase, s: seq<nat>): (r: seq<nat>)
    ensures |r| == |s|
  {
    seq(|s|, i requires 0 <= i < |s| => up(s[i]))
  }

  /** exfat_uniname_ncmp finds no difference between the first k characters of t
      and those of s from `at` on. */
  predicate Alike(up: Upcase, s: seq<nat>, at: nat, t: seq<nat>, k: nat)
    requires k <= |t| && at + k <= |s|
    decreases k
  {
    k == 0 || (Alike(up, s, at, t, k - 1) && up(s[at + k - 1]) == up(t[k - 1]))
  }

  lemma {:induction false} AlikeIs(up: Upcase, s: seq<nat>, t: seq<nat>, k: nat)
    requires k <= |t| && k <= |s|
    ensures Alike(up, s, 0, t, k) <==> Up(up, s[..k]) == Up(up, t[..k])
    decreases k
  {
    if k > 0 {
      AlikeIs(up, s, t, k - 1);
      UpSnoc(up, s, k - 1);
      UpSnoc(up, t, k - 1);
      var a, b, x, y := Up(up, s[..k - 1]), Up(up, t[..k - 1]), up(s[k - 1]), up(t[k - 1]);
      if a + [x] == b + [y] {
        assert a == (a + [x])[..k - 1] && b == (b + [y])[..k - 1];
        assert (a + [x])[k - 1] == x && (b + [y])[k - 1] == y;
      }
    }
  }

  lemma UpSnoc(up: Upcase, s: seq<nat>, k: nat)
    requires k < |s|
    ensures Up(up, s[..k + 1]) == Up(up, s[..k]) + [up(s[k])]
  {
  }

  predicate KindOk(w: Wanted, isDir: bool) {
    w == Any || (w == OnlyDirs) == isDir
  }

  /** Where the search is in an entry set: before one, after the file entry of a
      set with n secondary entries, in its name with `order` of them and `len`
      characters seen, or behind the name. */
  datatype Step = AtFile | AtStream(n: nat) | AtName(n: nat, order: nat, len: nat) | AtSecondary(n: nat, order: nat)

  /** The characters of one name entry are those of the query at its place. */
  predicate SameChunk(up: Upcase, q: Query, order: nat, chars: seq<nat>) {
    order >= 1 && SameAt(up, q, NAME_LEN * (order - 1), chars)
  }

  predicate SameAt(up: Upcase, q: Query, at: nat, chars: seq<nat>) {
    at + |chars| <= |q.name| && Alike(up, q.name, at, chars, |chars|)
  }

  /** One entry of the search: the next step, or None when the name is found. */
  function Advance(up: Upcase, q: Query, st: Step, e: Dentry): (r: Option<Step>) {
    match e
    case Unused => Some(AtFile)
    case Deleted => Some(AtFile)
    case Primary => Some(AtFile)
    case FileEntry(isDir, numExt) => Some(if KindOk(q.wanted, isDir) then AtStream(numExt) else AtFile)
    case StreamEntry(hash, nameLen) =>
      Some(if st.AtStream? && q.hash == hash && |q.name| == nameLen then AtName(st.n, 1, 0) else AtFile)
    case NameEntry(chars) =>
      if !st.AtName? || !SameChunk(up, q, st.order, chars) then Some(AtFile)
      else if |q.name| != st.len + |chars| then Some(AtName(st.n, st.order + 1, st.len + |chars|))
      else if st.order + 1 == st.n then None
      else Some(AtSecondary(st.n, st.order + 1))
    case Secondary =>
      if !st.AtSecondary? then Some(AtFile)
      else if st.order + 1 == st.n then None
      else Some(AtSecondary(st.n, st.order + 1))
  }

  /** The search from entry i up to `stop` or the first unused entry: the
      position of the set that is found. */
  function Scan(up: Upcase, q: Query, es: seq<Dentry>, i: nat, stop: nat, st: Step): (r: Option<Hit>)
    requires stop <= |es|
    decreases stop - i
  {
    if i >= stop || es[i].Unused? then None
    else
      var r := Advance(up, q, st, es[i]);
      if r.None? then Some(Hit(i - SetSize(st), i + 1)) else Scan(up, q, es, i + 1, stop, r.value)
  }

  function SetSize(st: Step): (n: nat) {
    if st.AtFile? then 0 else st.n
  }

  /** exfat_find_dir_entry: from the hint to the end, and then from the start to
      the hint. */
  function Search(up: Upcase, q: Query, es: seq<Dentry>, hint: nat): (r: Option<Hit>)
    requires hint <= |es|
  {
    var r := Scan(up, q, es, hint, |es|, AtFile);
    if r.None? && hint > 0 then Scan(up, q, es, 0, hint, AtFile) else r
  }

  /** A directory is made of entry sets and single entries that begin none. */
  datatype Block = Single(e: Dentry) | Set(isDir: bool, name: seq<nat>, extra: nat)

  function Names(name: seq<nat>): (es: seq<Dentry>) {
    if |name| <= NAME_LEN then [NameEntry(name)] else [NameEntry(name[..NAME_LEN])] + Names(name[NAME_LEN..])
  }

  function Extra(k: nat): (es: seq<Dentry>)
    ensures |es| == k
  {
    seq(k, _ => Secondary)
  }

  /** The secondary entries of a set after its stream entry. */
  function Tail(name: seq<nat>, extra: nat): (es: seq<Dentry>) {
    Names(name) + Extra(extra)
  }

  function Entries(up: Upcase, hash: NameHash, b: Block): (es: seq<Dentry>)
    ensures |es| > 0
  {
    match b
    case Single(e) => [e]
    case Set(isDir, name, extra) =>
      [FileEntry(isDir, 1 + |Names(name)| + extra), StreamEntry(hash(Up(up, name)), |name|)] + Tail(name, extra)
  }

  predicate GoodBlock(b: Block) {
    match b
    case Single(e) => !e.Unused? && !e.FileEntry?
    case Set(_, name, _) => name != []
  }

  predicate Matches(up: Upcase, q: Query, b: Block) {
    b.Set? && KindOk(q.wanted, b.isDir) && Up(up, b.name) == Up(up, q.name)
  }

  /** Entries that begin no set are skipped. */
  lemma {:induction false} ScanSkip(up: Upcase, q: Query, es: seq<Dentry>, i: nat, j: nat, stop: nat)
    requires i <= j <= stop <= |es| && forall k :: i <= k < j ==> !es[k].Unused? && !es[k].FileEntry?
    ensures Scan(up, q, es, i, stop, AtFile) == Scan(up, q, es, j, stop, AtFile)
    decreases j - i
  {
    if i < j { ScanSkip(up, q, es, i + 1, j, stop); }
  }

  /** Behind a name that is the one looked for, the set is found at its end. */
  lemma {:induction false} ScanExtra(up: Upcase, q: Query, es: seq<Dentry>, i: nat, stop: nat, n: nat, order: nat,
                                     k: nat)
    requires k > 0 && i + k <= stop <= |es| && order + k == n
    requires forall j :: i <= j < i + k ==> es[j] == Secondary
    ensures Scan(up, q, es, i, stop, AtSecondary(n, order)) == Some(Hit(i + k - 1 - n, i + k))
    decreases k
  {
    if k > 1 { ScanExtra(up, q, es, i + 1, stop, n, order + 1, k - 1); }
  }

  lemma {:induction false} NamesSecondary(name: seq<nat>)
    ensures |Names(name)| > 0
    ensures forall k :: 0 <= k < |Names(name)| ==> Names(name)[k].NameEntry?
  {
    if |name| > NAME_LEN { NamesSecondary(name[NAME_LEN..]); }
  }

  /** es[i..] starts with `part`. */
  predicate StartsAt(es: seq<Dentry>, i: nat, part: seq<Dentry>) {
    i + |part| <= |es| && es[i..i + |part|] == part
  }

  lemma StartsIndex(es: seq<Dentry>, i: nat, part: seq<Dentry>, k: nat)
    requires StartsAt(es, i, part) && k < |part|
    ensures es[i + k] == part[k]
  {
    assert es[i..i + |part|][k] == part[k];
  }

  lemma StartsRest(es: seq<Dentry>, i: nat, part: seq<Dentry>, k: nat)
    requires StartsAt(es, i, part) && k <= |part|
    ensures StartsAt(es, i + k, part[k..])
  {
    assert es[i + k..i + |part|] == es[i..i + |part|][k..];
  }

  /** The rest of the entries of a set does not begin another. */
  lemma SkipTail(up: Upcase, q: Query, es: seq<Dentry>, i: nat, stop: nat, name: seq<nat>, extra: nat, k: nat)
    requires StartsAt(es, i, Tail(name, extra)) && k <= |Tail(name, extra)| && i + |Tail(name, extra)| <= stop <= |es|
    ensures Scan(up, q, es, i + k, stop, AtFile) == Scan(up, q, es, i + |Tail(name, extra)|, stop, AtFile)
  {
    var t := Tail(name, extra);
    NamesSecondary(name);
    forall j | i + k <= j < i + |t| ensures !es[j].Unused? && !es[j].FileEntry? {
      StartsIndex(es, i, t, j - i);
    }
    ScanSkip(up, q, es, i + k, i + |t|, stop);
  }

  lemma {:induction false} AlikeFront(up: Upcase, s: seq<nat>, at: nat, t: seq<nat>, m: nat, k: nat)
    requires k <= m <= |t| && at + m <= |s|
    ensures Alike(up, s, at, t[..m], k) == Alike(up, s, at, t, k)
    decreases k
  {
    if k > 0 { AlikeFront(up, s, at, t, m, k - 1); }
  }

  lemma {:induction false} AlikeBack(up: Upcase, s: seq<nat>, at: nat, t: seq<nat>, m: nat, k: nat)
    requires m + k <= |t| && at + m + k <= |s|
    ensures Alike(up, s, at, t, m + k) <==> Alike(up, s, at, t, m) && Alike(up, s, at + m, t[m..], k)
    decreases k
  {
    if k > 0 { AlikeBack(up, s, at, t, m, k - 1); }
  }

  /** Comparing a long name: its first entry, and the rest. */
  lemma FirstChunk(up: Upcase, q: Query, at: nat, name: seq<nat>)
    requires |q.name| == at + |name| && |name| > NAME_LEN
    ensures SameAt(up, q, at, name)
       <==> SameAt(up, q, at, name[..NAME_LEN]) && SameAt(up, q, at + NAME_LEN, name[NAME_LEN..])
  {
    AlikeFront(up, q.name, at, name, NAME_LEN, NAME_LEN);
    AlikeBack(up, q.name, at, name, NAME_LEN, |name| - NAME_LEN);
  }

  /** The result of the name entries and what follows them. */
  function NameResult(up: Upcase, q: Query, es: seq<Dentry>, end: nat, stop: nat, n: nat, same: bool): (r: Option<Hit>)
    requires stop <= |es|
  {
    if same then Some(Hit(end - 1 - n, end)) else Scan(up, q, es, end, stop, AtFile)
  }

  /** A name in one entry. */
  lemma ScanShort(up: Upcase, q: Query, es: seq<Dentry>, i: nat, stop: nat, n: nat, order: nat, len: nat,
                  name: seq<nat>, extra: nat, end: nat)
    requires order >= 1 && 0 < |name| <= NAME_LEN && len == NAME_LEN * (order - 1) && |q.name| == len + |name|
    requires StartsAt(es, i, Tail(name, extra)) && end == i + 1 + extra <= stop <= |es| && n == order + 1 + extra
    ensures Scan(up, q, es, i, stop, AtName(n, order, len))
         == NameResult(up, q, es, end, stop, n, SameAt(up, q, len, name))
  {
    StartsIndex(es, i, Tail(name, extra), 0);
    SkipTail(up, q, es, i, stop, name, extra, 1);
    if extra > 0 { ScanLast(up, q, es, i, stop, n, order, name, extra); }
  }

  /** The name entries of a set: found when the name is the one looked for, and
      nothing otherwise. */
  lemma {:induction false} ScanNames(up: Upcase, q: Query, es: seq<Dentry>, i: nat, stop: nat, n: nat, order: nat,
                                     len: nat, name: seq<nat>, extra: nat, end: nat)
    requires order >= 1 && name != [] && len == NAME_LEN * (order - 1) && |q.name| == len + |name|
    requires StartsAt(es, i, Tail(name, extra)) && end == i + |Tail(name, extra)| <= stop <= |es|
    requires n == order + |Tail(name, extra)|
    ensures Scan(up, q, es, i, stop, AtName(n, order, len))
         == NameResult(up, q, es, end, stop, n, SameAt(up, q, len, name))
    decreases |name|
  {
    if |name| > NAME_LEN {
      var rest := name[NAME_LEN..];
      LongParts(es, i, name, extra, end);
      ScanNames(up, q, es, i + 1, stop, n, order + 1, len + NAME_LEN, rest, extra, end);
      SkipTail(up, q, es, i, stop, name, extra, 1);
      FirstChunk(up, q, len, name);
      ScanChunk(up, q, es, i, stop, n, order, len, name[..NAME_LEN], end, SameAt(up, q, len + NAME_LEN, rest));
    } else {
      ScanShort(up, q, es, i, stop, n, order, len, name, extra, end);
    }
  }

  /** The first of several name entries, and the rest of them. */
  lemma LongParts(es: seq<Dentry>, i: nat, name: seq<nat>, extra: nat, end: nat)
    requires |name| > NAME_LEN && StartsAt(es, i, Tail(name, extra)) && end == i + |Tail(name, extra)|
    ensures i < |es| && es[i] == NameEntry(name[..NAME_LEN])
    ensures StartsAt(es, i + 1, Tail(name[NAME_LEN..], extra)) && end == i + 1 + |Tail(name[NAME_LEN..], extra)|
  {
    TailRest(name, extra);
    StartsIndex(es, i, Tail(name, extra), 0);
    StartsRest(es, i, Tail(name, extra), 1);
  }

  /** One of several name entries. */
  lemma ScanChunk(up: Upcase, q: Query, es: seq<Dentry>, i: nat, stop: nat, n: nat, order: nat, len: nat,
                  chars: seq<nat>, end: nat, rest: bool)
    requires order >= 1 && len == NAME_LEN * (order - 1) && i < stop <= |es| && es[i] == NameEntry(chars)
    requires |chars| == NAME_LEN && |q.name| > len + NAME_LEN
    requires Scan(up, q, es, i + 1, stop, AtName(n, order + 1, len + NAME_LEN))
             == NameResult(up, q, es, end, stop, n, rest)
    requires Scan(up, q, es, i + 1, stop, AtFile) == Scan(up, q, es, end, stop, AtFile)
    ensures Scan(up, q, es, i, stop, AtName(n, order, len))
         == NameResult(up, q, es, end, stop, n, SameAt(up, q, len, chars) && rest)
  {
  }

  lemma ScanLast(up: Upcase, q: Query, es: seq<Dentry>, i: nat, stop: nat, n: nat, order: nat, name: seq<nat>,
                 extra: nat)
    requires |name| <= NAME_LEN && extra > 0 && StartsAt(es, i, Tail(name, extra)) && i + 1 + extra <= stop <= |es|
    requires n == order + 1 + extra
    ensures Scan(up, q, es, i + 1, stop, AtSecondary(n, order + 1)) == Some(Hit(i + extra - n, i + 1 + extra))
  {
    var t := Tail(name, extra);
    forall j | i + 1 <= j < i + 1 + extra ensures es[j] == Secondary { StartsIndex(es, i, t, j - i); }
    ScanExtra(up, q, es, i + 1, stop, n, order + 1, extra);
  }

  lemma TailRest(name: seq<nat>, extra: nat)
    requires |name| > NAME_LEN
    ensures Tail(name, extra)[1..] == Tail(name[NAME_LEN..], extra)
    ensures |Tail(name, extra)| == 1 + |Tail(name[NAME_LEN..], extra)|
  {
  }

  lemma WholeName(up: Upcase, q: Query, name: seq<nat>)
    ensures Up(up, q.name) == Up(up, name) ==> |q.name| == |name|
    ensures |q.name| == |name| ==> (SameAt(up, q, 0, name) <==> Up(up, q.name) == Up(up, name))
  {
    assert |Up(up, q.name)| == |q.name| && |Up(up, name)| == |name|;
    if |q.name| == |name| {
      AlikeIs(up, q.name, name, |name|);
      assert q.name[..|name|] == q.name && name[..|name|] == name;
    }
  }

  /** The file entry and the stream entry of a set. */
  lemma ScanHead(up: Upcase, q: Query, es: seq<Dentry>, i: nat, stop: nat, isDir: bool, n: nat, hash: nat, len: nat,
                 end: nat, same: bool)
    requires i + 2 <= stop <= |es| && es[i] == FileEntry(isDir, n) && es[i + 1] == StreamEntry(hash, len)
    requires Scan(up, q, es, i + 2, stop, AtFile) == Scan(up, q, es, end, stop, AtFile)
    requires |q.name| == len ==>
               Scan(up, q, es, i + 2, stop, AtName(n, 1, 0)) == NameResult(up, q, es, end, stop, n, same)
    ensures Scan(up, q, es, i, stop, AtFile)
         == NameResult(up, q, es, end, stop, n, KindOk(q.wanted, isDir) && q.hash == hash && |q.name| == len && same)
  {
  }

  /** A set is found exactly when it is the one that is looked for. */
  lemma ScanSet(up: Upcase, hash: NameHash, q: Query, es: seq<Dentry>, i: nat, stop: nat, b: Block, end: nat)
    requires b.Set? && b.name != [] && q.hash == hash(Up(up, q.name))
    requires StartsAt(es, i, Entries(up, hash, b)) && end == i + |Entries(up, hash, b)| <= stop <= |es|
    ensures Scan(up, q, es, i, stop, AtFile)
         == if Matches(up, q, b) then Some(Hit(i, end)) else Scan(up, q, es, end, stop, AtFile)
  {
    var n := 1 + |Tail(b.name, b.extra)|;
    SetParts(up, hash, es, i, b);
    SkipTail(up, q, es, i + 2, stop, b.name, b.extra, 0);
    WholeName(up, q, b.name);
    if |q.name| == |b.name| { ScanNames(up, q, es, i + 2, stop, n, 1, 0, b.name, b.extra, end); }
    ScanHead(up, q, es, i, stop, b.isDir, n, hash(Up(up, b.name)), |b.name|, end, SameAt(up, q, 0, b.name));
  }

  /** A block is found exactly when it is the set that is looked for. */
  lemma ScanBlock(up: Upcase, hash: NameHash, q: Query, es: seq<Dentry>, i: nat, stop: nat, b: Block, end: nat)
    requires GoodBlock(b) && q.hash == hash(Up(up, q.name))
    requires StartsAt(es, i, Entries(up, hash, b)) && end == i + |Entries(up, hash, b)| <= stop <= |es|
    ensures Scan(up, q, es, i, stop, AtFile)
         == if Matches(up, q, b) then Some(Hit(i, end)) else Scan(up, q, es, end, stop, AtFile)
  {
    if b.Set? {
      ScanSet(up, hash, q, es, i, stop, b, end);
    } else {
      StartsIndex(es, i, Entries(up, hash, b), 0);
    }
  }

  lemma SetParts(up: Upcase, hash: NameHash, es: seq<Dentry>, i: nat, b: Block)
    requires b.Set? && StartsAt(es, i, Entries(up, hash, b))
    ensures i + 2 <= |es| && es[i] == FileEntry(b.isDir, 1 + |Tail(b.name, b.extra)|)
    ensures es[i + 1] == StreamEntry(hash(Up(up, b.name)), |b.name|)
    ensures StartsAt(es, i + 2, Tail(b.name, b.extra)) && |Entries(up, hash, b)| == 2 + |Tail(b.name, b.extra)|
  {
    var part := Entries(up, hash, b);
    StartsIndex(es, i, part, 0);
    StartsIndex(es, i, part, 1);
    StartsRest(es, i, part, 2);
    assert part[2..] == Tail(b.name, b.extra);
  }

  /** The blocks `bs` are laid out in the directory from entry i on. */
  ghost predicate Laid(up: Upcase, hash: NameHash, bs: seq<Block>, es: seq<Dentry>, i: nat) {
    bs == [] ||
    (&& GoodBlock(bs[0]) && StartsAt(es, i, Entries(up, hash, bs[0]))
     && Laid(up, hash, bs[1..], es, i + |Entries(up, hash, bs[0])|))
  }

  /** The entry after them. */
  ghost function End(up: Upcase, hash: NameHash, bs: seq<Block>, i: nat): (j: nat)
    ensures j >= i
  {
    if bs == [] then i else End(up, hash, bs[1..], i + |Entries(up, hash, bs[0])|)
  }

  /** The position of the first of the blocks that is looked for. */
  ghost function FirstMatch(up: Upcase, hash: NameHash, q: Query, bs: seq<Block>, i: nat): (r: Option<Hit>) {
    if bs == [] then None
    else if Matches(up, q, bs[0]) then Some(Hit(i, i + |Entries(up, hash, bs[0])|))
    else FirstMatch(up, hash, q, bs[1..], i + |Entries(up, hash, bs[0])|)
  }

  lemma FirstStep(up: Upcase, hash: NameHash, q: Query, bs: seq<Block>, es: seq<Dentry>, i: nat, next: nat)
    requires bs != [] && next == i + |Entries(up, hash, bs[0])|
    ensures End(up, hash, bs, i) == End(up, hash, bs[1..], next)
    ensures FirstMatch(up, hash, q, bs, i) == if Matches(up, q, bs[0]) then Some(Hit(i, next))
                                             else FirstMatch(up, hash, q, bs[1..], next)
    ensures Laid(up, hash, bs, es, i) ==>
              GoodBlock(bs[0]) && StartsAt(es, i, Entries(up, hash, bs[0])) && Laid(up, hash, bs[1..], es, next)
  {
  }

  /** A scan over whole blocks. */
  lemma {:induction false} ScanLaid(up: Upcase, hash: NameHash, q: Query, bs: seq<Block>, es: seq<Dentry>, i: nat,
                                    stop: nat)
    requires Laid(up, hash, bs, es, i) && q.hash == hash(Up(up, q.name)) && End(up, hash, bs, i) <= stop <= |es|
    ensures Scan(up, q, es, i, stop, AtFile)
         == if FirstMatch(up, hash, q, bs, i).Some? then FirstMatch(up, hash, q, bs, i)
            else Scan(up, q, es, End(up, hash, bs, i), stop, AtFile)
    decreases |bs|
  {
    if bs != [] {
      var next := i + |Entries(up, hash, bs[0])|;
      FirstStep(up, hash, q, bs, es, i, next);
      ScanBlock(up, hash, q, es, i, stop, bs[0], next);
      ScanLaid(up, hash, q, bs[1..], es, next, stop);
    }
  }

  /** A directory in two parts. */
  lemma {:induction false} Parts(up: Upcase, hash: NameHash, q: Query, a: seq<Block>, b: seq<Block>, es: seq<Dentry>,
                                 i: nat)
    ensures End(up, hash, a + b, i) == End(up, hash, b, End(up, hash, a, i))
    ensures Laid(up, hash, a + b, es, i) <==> Laid(up, hash, a, es, i) && Laid(up, hash, b, es, End(up, hash, a, i))
    ensures FirstMatch(up, hash, q, a + b, i) == if FirstMatch(up, hash, q, a, i).Some?
                                                 then FirstMatch(up, hash, q, a, i)
                                                 else FirstMatch(up, hash, q, b, End(up, hash, a, i))
    decreases |a|
  {
    if a == [] {
      assert a + b == b;
    } else {
      assert (a + b)[0] == a[0] && (a + b)[1..] == a[1..] + b;
      Parts(up, hash, q, a[1..], b, es, i + |Entries(up, hash, a[0])|);
    }
  }

  lemma EndFront(up: Upcase, hash: NameHash, bs: seq<Block>, k: nat, i: nat)
    requires k < |bs|
    ensures End(up, hash, bs[..k + 1], i) == End(up, hash, bs[1..][..k], i + |Entries(up, hash, bs[0])|)
  {
    assert bs[..k + 1][1..] == bs[1..][..k];
  }

  /** A match is one of the blocks. */
  lemma {:induction false} FirstMatchIs(up: Upcase, hash: NameHash, q: Query, bs: seq<Block>, i: nat) returns (k: nat)
    requires FirstMatch(up, hash, q, bs, i).Some?
    ensures k < |bs| && Matches(up, q, bs[k])
    ensures FirstMatch(up, hash, q, bs, i) == Some(Hit(End(up, hash, bs[..k], i), End(up, hash, bs[..k + 1], i)))
    decreases |bs|
  {
    if Matches(up, q, bs[0]) {
      k := 0;
      EndFront(up, hash, bs, 0, i);
      assert bs[..0] == [] && bs[1..][..0] == [];
    } else {
      k := FirstMatchIs(up, hash, q, bs[1..], i + |Entries(up, hash, bs[0])|);
      EndFront(up, hash, bs, k, i);
      EndFront(up, hash, bs, k + 1, i);
      k := k + 1;
    }
  }

  /** Block b is a set with the name looked for, of the kind looked for. */
  ghost predicate Wants(up: Upcase, q: Query, b: Block) {
    && b.Set? && Up(up, b.name) == Up(up, q.name)
    && (q.wanted == OnlyFiles ==> !b.isDir) && (q.wanted == OnlyDirs ==> b.isDir)
  }

  /** When there is no match, no block is wanted. */
  lemma {:induction false} NoMatchMeans(up: Upcase, hash: NameHash, q: Query, bs: seq<Block>, i: nat)
    requires FirstMatch(up, hash, q, bs, i).None?
    ensures forall k :: 0 <= k < |bs| ==> !Wants(up, q, bs[k])
    decreases |bs|
  {
    if bs != [] {
      NoMatchMeans(up, hash, q, bs[1..], i + |Entries(up, hash, bs[0])|);
      forall k | 0 <= k < |bs| ensures !Wants(up, q, bs[k]) {
        if k > 0 { assert bs[k] == bs[1..][k - 1]; }
      }
    }
  }

  /** A match is the position of a block that is wanted. */
  lemma MatchMeans(up: Upcase, hash: NameHash, q: Query, bs: seq<Block>, es: seq<Dentry>) returns (k: nat)
    requires FirstMatch(up, hash, q, bs, 0).Some? && Laid(up, hash, bs, es, 0)
    ensures var h := FirstMatch(up, hash, q, bs, 0).value;
            && k < |bs| && Wants(up, q, bs[k])
            && h == Hit(End(up, hash, bs[..k], 0), End(up, hash, bs[..k + 1], 0))
            && 0 <= h.pos && StartsAt(es, h.pos, Entries(up, hash, bs[k]))
  {
    k := FirstMatchIs(up, hash, q, bs, 0);
    assert bs == bs[..k] + bs[k..] && bs[k..][0] == bs[k];
    Parts(up, hash, q, bs[..k], bs[k..], es, 0);
    FirstStep(up, hash, q, bs[k..], es, End(up, hash, bs[..k], 0),
              End(up, hash, bs[..k], 0) + |Entries(up, hash, bs[k])|);
  }

  /** What a lookup answers: nothing when no block is wanted, and else the place of
      block `at`, which is, in the entries of the directory. */
  ghost predicate Answers(up: Upcase, hash: NameHash, q: Query, bs: seq<Block>, es: seq<Dentry>, r: Option<Hit>,
                          at: nat) {
    match r
    case None => forall k :: 0 <= k < |bs| ==> !Wants(up, q, bs[k])
    case Some(Hit(pos, end)) =>
      && at < |bs| && Wants(up, q, bs[at])
      && pos == End(up, hash, bs[..at], 0) && end == End(up, hash, bs[..at + 1], 0)
      && 0 <= pos && StartsAt(es, pos, Entries(up, hash, bs[at]))
  }

  lemma MatchAnswers(up: Upcase, hash: NameHash, q: Query, bs: seq<Block>, es: seq<Dentry>) returns (at: nat)
    requires Laid(up, hash, bs, es, 0)
    ensures Answers(up, hash, q, bs, es, FirstMatch(up, hash, q, bs, 0), at)
  {
    at := 0;
    if FirstMatch(up, hash, q, bs, 0).Some? {
      at := MatchMeans(up, hash, q, bs, es);
    } else {
      NoMatchMeans(up, hash, q, bs, 0);
    }
  }

  /** No two sets have the same name, however it is written. */
  ghost predicate DistinctNames(up: Upcase, bs: seq<Block>) {
    forall i, j :: 0 <= i < j < |bs| && bs[i].Set? && bs[j].Set? ==> Up(up, bs[i].name) != Up(up, bs[j].name)
  }

  /** A directory: its blocks, and then unused entries. */
  ghost predicate IsDir(up: Upcase, hash: NameHash, bs: seq<Block>, es: seq<Dentry>) {
    && Laid(up, hash, bs, es, 0) && DistinctNames(up, bs)
    && End(up, hash, bs, 0) <= |es|
    && forall k :: End(up, hash, bs, 0) <= k < |es| ==> es[k] == Unused
  }

  /** A hint that the driver may hold: the start of a block of those that come
      after `a`, or a place behind all blocks. */
  ghost predicate HintOk(up: Upcase, hash: NameHash, a: seq<Block>, b: seq<Block>, hint: nat) {
    hint == End(up, hash, a, 0) || (b == [] && hint >= End(up, hash, a, 0))
  }

  lemma OnlyOne(up: Upcase, hash: NameHash, q: Query, a: seq<Block>, b: seq<Block>, i: nat, j: nat)
    requires DistinctNames(up, a + b) && FirstMatch(up, hash, q, b, j).Some?
    ensures FirstMatch(up, hash, q, a, i) == None
  {
    if FirstMatch(up, hash, q, a, i).Some? {
      var x := FirstMatchIs(up, hash, q, a, i);
      var y := FirstMatchIs(up, hash, q, b, j);
      NotBoth(up, q, a, b, x, y);
    }
  }

  lemma NotBoth(up: Upcase, q: Query, a: seq<Block>, b: seq<Block>, x: nat, y: nat)
    requires DistinctNames(up, a + b) && x < |a| && y < |b| && Matches(up, q, b[y])
    ensures !Matches(up, q, a[x])
  {
    assert (a + b)[x] == a[x] && (a + b)[|a| + y] == b[y];
  }

  /** The second part of the directory, from the hint on. */
  lemma ScanRest(up: Upcase, hash: NameHash, q: Query, a: seq<Block>, b: seq<Block>, es: seq<Dentry>, hint: nat)
    requires IsDir(up, hash, a + b, es) && q.hash == hash(Up(up, q.name)) && HintOk(up, hash, a, b, hint)
             && hint <= |es|
    ensures Scan(up, q, es, hint, |es|, AtFile) == FirstMatch(up, hash, q, b, End(up, hash, a, 0))
  {
    Parts(up, hash, q, a, b, es, 0);
    if hint == End(up, hash, a, 0) { ScanLaid(up, hash, q, b, es, hint, |es|); }
  }

  /** The first part, up to the hint. */
  lemma ScanStart(up: Upcase, hash: NameHash, q: Query, a: seq<Block>, b: seq<Block>, es: seq<Dentry>, hint: nat)
    requires IsDir(up, hash, a + b, es) && q.hash == hash(Up(up, q.name)) && HintOk(up, hash, a, b, hint)
             && hint <= |es|
    ensures Scan(up, q, es, 0, hint, AtFile) == FirstMatch(up, hash, q, a, 0)
  {
    Parts(up, hash, q, a, b, es, 0);
    ScanLaid(up, hash, q, a, es, 0, hint);
  }

  /** From any hint the search gives what a scan from the first entry gives: the
      position of the set with the name looked for, or nothing if there is none. */
  lemma HintedIsPlain(up: Upcase, hash: NameHash, q: Query, a: seq<Block>, b: seq<Block>, es: seq<Dentry>, hint: nat)
    requires IsDir(up, hash, a + b, es) && q.hash == hash(Up(up, q.name)) && HintOk(up, hash, a, b, hint)
             && hint <= |es|
    ensures Search(up, q, es, hint) == FirstMatch(up, hash, q, a + b, 0)
    ensures Search(up, q, es, hint) == Search(up, q, es, 0)
  {
    ScanRest(up, hash, q, a, b, es, hint);
    ScanStart(up, hash, q, a, b, es, hint);
    Parts(up, hash, q, a, b, es, 0);
    if FirstMatch(up, hash, q, b, End(up, hash, a, 0)).Some? { OnlyOne(up, hash, q, a, b, 0, End(up, hash, a, 0)); }
    assert [] + (a + b) == a + b;
    ScanRest(up, hash, q, [], a + b, es, 0);
    if hint == 0 { NoBlocks(up, hash, q, a); }
  }

  /** Blocks that take no entries are none. */
  lemma NoBlocks(up: Upcase, hash: NameHash, q: Query, a: seq<Block>)
    requires End(up, hash, a, 0) == 0
    ensures FirstMatch(up, hash, q, a, 0) == None
  {
  }

  /** The hint that a search leaves is again one that the driver may hold. */
  lemma HintAgain(up: Upcase, hash: NameHash, q: Query, bs: seq<Block>) returns (a: seq<Block>, b: seq<Block>)
    requires FirstMatch(up, hash, q, bs, 0).Some?
    ensures a + b == bs && HintOk(up, hash, a, b, FirstMatch(up, hash, q, bs, 0).value.end)
  {
    var k := FirstMatchIs(up, hash, q, bs, 0);
    a, b := bs[..k + 1], bs[k + 1..];
  }
}
