/** What the search of exfat_find_dir_entry finds in any directory, whatever entries
    it holds: an entry set with the name looked for, and nothing else. */
module DirFound {
  import opened Common
  import opened DirSearch

  /** The k entries from `from` on are name entries, each equal to its part of the
      name looked for; their characters are `len` together. */
  ghost predicate NamesSeen(up: Upcase, q: Query, es: seq<Dentry>, from: nat, k: nat, len: nat)
    decreases k
  {
    if k == 0 then len == 0
    else
      && from + k <= |es| && es[from + k - 1].NameEntry?
      && var chars := es[from + k - 1].chars;
         && SameAt(up, q, NAME_LEN * (k - 1), chars) && |chars| <= len
         && NamesSeen(up, q, es, from, k - 1, len - |chars|)
  }

  ghost predicate SecondariesSeen(es: seq<Dentry>, from: nat, k: nat) {
    from + k <= |es| && forall i :: from <= i < from + k ==> es[i].Secondary?
  }

  /** The entries at f and behind it are the file and the stream entry of a set with
      n secondary entries. */
  ghost predicate HeadSeen(q: Query, es: seq<Dentry>, f: nat, n: nat) {
    && f + 2 <= |es| && FileSeen(q, es, f, n)
    && es[f + 1] == StreamEntry(q.hash, |q.name|)
  }

  ghost predicate FileSeen(q: Query, es: seq<Dentry>, f: nat, n: nat) {
    && f < |es| && es[f].FileEntry? && es[f].numExt == n
    && (q.wanted == OnlyFiles ==> !es[f].isDir) && (q.wanted == OnlyDirs ==> es[f].isDir)
  }

  /** What the search has seen when it is at entry i in step st; m is the number of
      name entries of a set whose name is complete. */
  ghost predicate Seen(up: Upcase, q: Query, es: seq<Dentry>, i: nat, st: Step, m: nat) {
    match st
    case AtFile => true
    case AtStream(n) => i >= 1 && FileSeen(q, es, i - 1, n)
    case AtName(n, order, len) =>
      && order >= 1 && i >= order + 1 && HeadSeen(q, es, i - order - 1, n)
      && NamesSeen(up, q, es, i - order + 1, order - 1, len)
    case AtSecondary(n, order) =>
      && order >= 1 && i >= order + 1 && HeadSeen(q, es, i - order - 1, n)
      && 1 <= m <= order - 1 && NamesSeen(up, q, es, i - order + 1, m, |q.name|)
      && SecondariesSeen(es, i - order + 1 + m, order - 1 - m)
  }

  /** The entries pos .. end-1 are a set with the name looked for: the file entry, the
      stream entry, m name entries and other secondary entries. */
  ghost predicate IsSet(up: Upcase, q: Query, es: seq<Dentry>, pos: int, end: nat, m: nat) {
    && 0 <= pos && pos + 2 + m <= end <= |es| && m >= 1
    && HeadSeen(q, es, pos, end - pos - 1)
    && NamesSeen(up, q, es, pos + 2, m, |q.name|) && SecondariesSeen(es, pos + 2 + m, end - pos - 2 - m)
  }

  lemma StepSeen(up: Upcase, q: Query, es: seq<Dentry>, i: nat, st: Step, m: nat) returns (m': nat)
    requires i < |es| && Seen(up, q, es, i, st, m)
    ensures var r := Advance(up, q, st, es[i]);
            if r.Some? then Seen(up, q, es, i + 1, r.value, m') else IsSet(up, q, es, i - SetSize(st), i + 1, m')
  {
    m' := m;
    if es[i].NameEntry? && st.AtName? {
      m' := st.order;
      NameSeen(up, q, es, i, st);
    }
  }

  lemma NameSeen(up: Upcase, q: Query, es: seq<Dentry>, i: nat, st: Step)
    requires i < |es| && es[i].NameEntry? && st.AtName? && Seen(up, q, es, i, st, 0)
    ensures var chars := es[i].chars;
            SameChunk(up, q, st.order, chars) ==>
              NamesSeen(up, q, es, i - st.order + 1, st.order, st.len + |chars|)
  {
  }

  lemma {:induction false} ScanFindsSets(up: Upcase, q: Query, es: seq<Dentry>, i: nat, stop: nat, st: Step, m: nat)
    returns (m': nat)
    requires stop <= |es| && Seen(up, q, es, i, st, m)
    ensures Scan(up, q, es, i, stop, st).Some? ==>
              var h := Scan(up, q, es, i, stop, st).value; IsSet(up, q, es, h.pos, h.end, m') && i < h.end <= stop
    decreases stop - i
  {
    m' := m;
    if i < stop && !es[i].Unused? {
      m' := StepSeen(up, q, es, i, st, m);
      var r := Advance(up, q, st, es[i]);
      if r.Some? { m' := ScanFindsSets(up, q, es, i + 1, stop, r.value, m'); }
    }
  }

  /** The characters of k name entries. */
  ghost function Joined(es: seq<Dentry>, from: nat, k: nat): (s: seq<nat>)
    requires from + k <= |es|
    decreases k
  {
    if k == 0 then []
    else Joined(es, from, k - 1) + (if es[from + k - 1].NameEntry? then es[from + k - 1].chars else [])
  }

  /** Name entries hold 15 characters at most. */
  ghost predicate ShortNames(es: seq<Dentry>) {
    forall i :: 0 <= i < |es| && es[i].NameEntry? ==> |es[i].chars| <= 15
  }

  lemma {:induction false} NamesFit(up: Upcase, q: Query, es: seq<Dentry>, from: nat, k: nat, len: nat)
    requires NamesSeen(up, q, es, from, k, len) && ShortNames(es)
    ensures len <= 15 * k
    decreases k
  {
    if k > 0 { NamesFit(up, q, es, from, k - 1, len - |es[from + k - 1].chars|); }
  }

  /** Name entries that hold 15 characters each are full. */
  lemma NamesFull(up: Upcase, q: Query, es: seq<Dentry>, from: nat, k: nat, len: nat)
    requires NamesSeen(up, q, es, from, k, len) && ShortNames(es) && from + k <= |es| && len == 15 * k
    ensures k > 0 ==> es[from + k - 1].NameEntry? && len == 15 * (k - 1) + |es[from + k - 1].chars|
  {
    if k > 0 { NamesFit(up, q, es, from, k - 1, len - |es[from + k - 1].chars|); }
  }

  /** All name entries but the last are full, so that together they are the name. */
  lemma {:induction false} NamesJoin(up: Upcase, q: Query, es: seq<Dentry>, from: nat, k: nat, len: nat)
    requires NamesSeen(up, q, es, from, k, len) && ShortNames(es) && from + k <= |es|
    requires len <= |q.name| && (k > 0 ==> len == NAME_LEN * (k - 1) + |es[from + k - 1].chars|)
    ensures Up(up, Joined(es, from, k)) == Up(up, q.name[..len])
    decreases k
  {
    if k > 0 {
      var chars := es[from + k - 1].chars;
      var len' := len - |chars|;
      NamesFull(up, q, es, from, k - 1, len');
      NamesJoin(up, q, es, from, k - 1, len');
      UpJoin(up, Joined(es, from, k - 1), chars);
      PartJoins(up, q, len', chars, len);
    }
  }

  lemma PartJoins(up: Upcase, q: Query, at: nat, chars: seq<nat>, len: nat)
    requires SameAt(up, q, at, chars) && len == at + |chars| <= |q.name|
    ensures Up(up, q.name[..at]) + Up(up, chars) == Up(up, q.name[..len])
  {
    PartIs(up, q, at, chars);
    UpJoin(up, q.name[..at], q.name[at..len]);
    assert q.name[..len] == q.name[..at] + q.name[at..len];
  }

  lemma UpJoin(up: Upcase, a: seq<nat>, b: seq<nat>)
    ensures Up(up, a + b) == Up(up, a) + Up(up, b)
  {
  }

  lemma PartIs(up: Upcase, q: Query, at: nat, chars: seq<nat>)
    requires SameAt(up, q, at, chars)
    ensures Up(up, q.name[at..at + |chars|]) == Up(up, chars)
  {
    AlikeAt(up, q.name, at, chars, |chars|);
    assert chars[..|chars|] == chars;
  }

  lemma {:induction false} AlikeAt(up: Upcase, s: seq<nat>, at: nat, t: seq<nat>, k: nat)
    requires k <= |t| && at + k <= |s| && Alike(up, s, at, t, k)
    ensures Up(up, s[at..at + k]) == Up(up, t[..k])
    decreases k
  {
    if k > 0 {
      AlikeAt(up, s, at, t, k - 1);
      assert s[at..at + k] == s[at..at + k - 1] + [s[at + k - 1]] && t[..k] == t[..k - 1] + [t[k - 1]];
      UpJoin(up, s[at..at + k - 1], [s[at + k - 1]]);
      UpJoin(up, t[..k - 1], [t[k - 1]]);
    }
  }

  /** Whatever the directory holds and wherever the search starts, what is found is an
      entry set: a file entry of the kind looked for, the stream entry with the hash
      and the length, name entries with the name, and other secondary entries, as
      many as the file entry says. */
  lemma FoundIsSet(up: Upcase, q: Query, es: seq<Dentry>, hint: nat) returns (m: nat)
    requires hint <= |es| && ShortNames(es) && Search(up, q, es, hint).Some?
    ensures var h := Search(up, q, es, hint).value;
            && 0 <= h.pos && h.pos + 3 <= h.end <= |es| && m <= h.end - h.pos - 2
            && es[h.pos].FileEntry? && es[h.pos].numExt == h.end - h.pos - 1
            && (q.wanted == OnlyFiles ==> !es[h.pos].isDir) && (q.wanted == OnlyDirs ==> es[h.pos].isDir)
            && es[h.pos + 1] == StreamEntry(q.hash, |q.name|)
            && Up(up, Joined(es, h.pos + 2, m)) == Up(up, q.name)
            && forall i :: h.pos + 2 + m <= i < h.end ==> es[i].Secondary?
  {
    m := ScanFindsSets(up, q, es, hint, |es|, AtFile, 0);
    if Scan(up, q, es, hint, |es|, AtFile).None? { m := ScanFindsSets(up, q, es, 0, hint, AtFile, 0); }
    var h := Search(up, q, es, hint).value;
    SetName(up, q, es, h.pos, h.end, m);
  }

  lemma SetName(up: Upcase, q: Query, es: seq<Dentry>, pos: nat, end: nat, m: nat)
    requires IsSet(up, q, es, pos, end, m) && ShortNames(es)
    ensures Up(up, Joined(es, pos + 2, m)) == Up(up, q.name)
  {
    var chars := es[pos + 1 + m].chars;
    NamesFit(up, q, es, pos + 2, m - 1, |q.name| - |chars|);
    NamesJoin(up, q, es, pos + 2, m, |q.name|);
    assert q.name[..|q.name|] == q.name;
  }
}
