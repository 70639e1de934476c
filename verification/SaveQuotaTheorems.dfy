/** No run of save operations pushes a save over its quota, or further over it; and the two
    situations in which that promise does not hold.
 */
module SaveQuotaTheorems {
  import opened Basics
  import opened SaveQuota

  /** Limit grants exactly the signed 64-bit sizes worth at most the current blocks plus the
      free ones, except to a file of exactly 2^48 - 1 blocks with nothing free: there the
      clamp to such a size grants one block more. */
  lemma LimitExact(free: nat, size: nat)
    requires size <= MAXIMUM
    ensures (forall n: nat :: n <= Limit(free, size) <==> n <= MAXIMUM && Blocks(n) <= Blocks(size) + free) <==>
            !(Blocks(size) == MAX_BLOCKS && free == 0)
  {
    if Blocks(size) == MAX_BLOCKS && free == 0 {
      assert Limit(free, size) == MAXIMUM && Blocks(MAXIMUM) == MAX_BLOCKS + 1;
    } else {
      forall n: nat
        ensures n <= Limit(free, size) <==> n <= MAXIMUM && Blocks(n) <= Blocks(size) + free
      {
        LimitAt(free, size, n);
      }
    }
  }

  lemma LimitAt(free: nat, size: nat, n: nat)
    ensures n <= Limit(free, size) <==>
            n <= MAXIMUM && (Blocks(n) <= Blocks(size) + free || (Blocks(size) == MAX_BLOCKS && free == 0))
  {
    assert Blocks(MAXIMUM) == MAX_BLOCKS + 1;
    if n <= MAXIMUM {
      BlocksMonotone(n, MAXIMUM);
    }
    if n <= (Blocks(size) + free) * BLOCK_SIZE {
      BlocksFit(n, Blocks(size) + free);
    }
  }

  lemma LimitMaximum(free: nat, size: nat)
    ensures Limit(free, size) <= MAXIMUM
  {
  }

  /** Sizes are signed 64-bit numbers. */
  predicate Sized(fs: Fs) {
    forall i :: 0 <= i < |fs.sizes| ==> fs.sizes[i] <= MAXIMUM
  }

  /** Exactly 2^48 - 1 blocks with nothing free: the case in which the clamp grants too much. */
  predicate AtClamp(fs: Fs, total: nat, size: nat) {
    Blocks(size) == MAX_BLOCKS && Free(fs, total) == 0
  }

  /** A file of `size` bytes may have n instead: with n bytes the save is within its quota,
      or no further outside it than it is, or the file is in the clamp's case. */
  predicate Allowed(fs: Fs, total: nat, size: nat, n: nat) {
    && n <= MAXIMUM
    && (Count(fs) + Blocks(n) <= Blocks(size) + Max(total, Count(fs)) || AtClamp(fs, total, size))
  }

  /** The limit is the largest allowed size. */
  lemma LimitIsLargest(fs: Fs, total: nat, size: nat, n: nat)
    ensures n <= Limit(Free(fs, total), size) <==> Allowed(fs, total, size, n)
  {
    hide Count, Limit, Blocks;
    LimitAt(Free(fs, total), size, n);
  }

  /** k is the length of the longest part of a write of `count` bytes that is allowed. */
  predicate Longest(fs: Fs, total: nat, size: nat, position: nat, count: nat, k: nat) {
    && k <= count
    && (k > 0 ==> Allowed(fs, total, size, position + k))
    && (k < count ==> !Allowed(fs, total, size, position + k + 1))
  }

  /** The quota passes on the longest part that is allowed, and refuses if there is none. */
  lemma GrantedIsLongest(fs: Fs, total: nat, id: nat, position: nat, count: nat) returns (k: nat)
    requires id < |fs.sizes| && count > 0 && position + count <= MAXIMUM
    ensures Longest(fs, total, fs.sizes[id], position, count, k)
    ensures Granted(fs, total, id, position, count) == if k == 0 then Err(ENOSPC) else Ok(k)
  {
    hide Allowed, Limit, Free;
    var size := fs.sizes[id];
    var limit := Limit(Free(fs, total), size);
    k := if position >= limit then 0 else Min(count, limit - position);
    LimitIsLargest(fs, total, size, position + k);
    LimitIsLargest(fs, total, size, position + k + 1);
  }

  lemma AllowedBelow(fs: Fs, total: nat, size: nat, a: nat, b: nat)
    ensures a <= b && Allowed(fs, total, size, b) ==> Allowed(fs, total, size, a)
  {
    hide Count, AtClamp;
    if a <= b {
      BlocksMonotone(a, b);
    }
  }

  /** There is one such length. */
  lemma LongestIsUnique(fs: Fs, total: nat, size: nat, position: nat, count: nat, j: nat, k: nat)
    requires Longest(fs, total, size, position, count, j) && Longest(fs, total, size, position, count, k)
    ensures j == k
  {
    hide Allowed;
    AllowedBelow(fs, total, size, position + j + 1, position + k);
    AllowedBelow(fs, total, size, position + k + 1, position + j);
  }

  /** No file is in that case. */
  predicate Unclamped(fs: Fs, total: nat) {
    forall i :: 0 <= i < |fs.sizes| && i in Live(fs) ==> !AtClamp(fs, total, fs.sizes[i])
  }

  /** The size whose limit an operation asks for; 0 if it asks for none. */
  function Asked(fs: Fs, op: Op): nat
    requires Valid(fs)
  {
    match op
    case Write(h, position, count, wrote) => if h in fs.open then fs.sizes[fs.open[h]] else 0
    case Truncate(h, length, done) => if h in fs.open then fs.sizes[fs.open[h]] else 0
    case TruncatePath(p, length, done) => if p in fs.dir then fs.sizes[fs.dir[p]] else 0
    case Replace(p, count, outcome) => Reclaimed(fs, p)
    case _ => 0
  }

  /** Only operations on such a file meet the case. */
  lemma UnclampedAsked(fs: Fs, total: nat, op: Op)
    requires Valid(fs) && Unclamped(fs, total)
    ensures !AtClamp(fs, total, Asked(fs, op))
  {
    hide Free;
    BlocksFit(0, 0);
    match op {
      case Write(h, position, count, wrote) => if h in fs.open { OpenIsLive(fs, h); }
      case Truncate(h, length, done) => if h in fs.open { OpenIsLive(fs, h); }
      case TruncatePath(p, length, done) => if p in fs.dir { NamedIsLive(fs, p); }
      case Replace(p, count, outcome) => if p in fs.dir { NamedIsLive(fs, p); }
      case _ =>
    }
  }

  lemma LiveWithin(fs: Fs, id: nat)
    requires Valid(fs) && id in Live(fs)
    ensures id < |fs.sizes| && Blocks(fs.sizes[id]) <= Count(fs)
  {
    UsedRemove(Live(fs), fs.sizes, id);
  }

  lemma GrowBound(fs: Fs, total: nat, id: nat, size: nat)
    requires Valid(fs) && Sized(fs) && id in Live(fs) && id < |fs.sizes| && !AtClamp(fs, total, fs.sizes[id])
    requires size <= fs.sizes[id] || size <= Limit(Free(fs, total), fs.sizes[id])
    ensures Count(Resize(fs, id, size)) <= Max(total, Count(fs))
  {
    LiveWithin(fs, id);
    UsedGrow(Live(fs), fs.sizes, id, size);
    assert Live(Resize(fs, id, size)) == Live(fs);
    if size <= fs.sizes[id] {
      BlocksMonotone(size, fs.sizes[id]);
    } else {
      LimitExact(Free(fs, total), fs.sizes[id]);
    }
  }

  lemma OpenIsLive(fs: Fs, h: nat)
    requires h in fs.open
    ensures fs.open[h] in Live(fs)
  {
    assert fs.open[h] in Opened(fs);
  }

  lemma NamedIsLive(fs: Fs, p: string)
    requires p in fs.dir
    ensures fs.dir[p] in Live(fs)
  {
    assert fs.dir[p] in Named(fs);
  }

  lemma TruncateBound(fs: Fs, total: nat, id: nat, length: nat, done: bool)
    requires Valid(fs) && Sized(fs) && id in Live(fs) && id < |fs.sizes| && !AtClamp(fs, total, fs.sizes[id])
    ensures Count(TruncateId(fs, total, id, length, done)) <= Max(total, Count(fs))
  {
    if TruncateId(fs, total, id, length, done) != fs {
      GrowBound(fs, total, id, length);
    }
  }

  /** Dropping names or handles frees blocks, never takes any. */
  lemma DropBound(fs: Fs, n: Fs)
    requires n.sizes == fs.sizes && Live(n) <= Live(fs)
    ensures Count(n) <= Count(fs)
  {
    UsedSubset(Live(n), Live(fs), fs.sizes);
  }

  lemma RenameLive(fs: Fs, from: string, to: string)
    requires from in fs.dir
    ensures Live(RenameTo(fs, from, to)) <= Live(fs)
  {
    var n := RenameTo(fs, from, to);
    forall i | i in Named(n) ensures i in Named(fs) {
      var p :| p in n.dir && n.dir[p] == i;
      if p in fs.dir && fs.dir[p] == i {
      } else {
        assert p == to && fs.dir[from] == i;
      }
    }
  }

  lemma RemoveLive(fs: Fs, p: string)
    ensures Live(fs.(dir := fs.dir - {p})) <= Live(fs)
  {
    var n := fs.(dir := fs.dir - {p});
    forall i | i in Named(n) ensures i in Named(fs) {
      var q :| q in n.dir && n.dir[q] == i;
      assert q in fs.dir && fs.dir[q] == i;
    }
  }

  lemma CloseLive(fs: Fs, h: nat)
    ensures Live(fs.(open := fs.open - {h})) <= Live(fs)
  {
    var n := fs.(open := fs.open - {h});
    forall i | i in Opened(n) ensures i in Opened(fs) {
      var k :| k in n.open && n.open[k] == i;
      assert k in fs.open && fs.open[k] == i;
    }
  }

  lemma MadeBound(fs: Fs, p: string)
    requires Valid(fs)
    ensures Count(Made(fs, p)) <= Count(fs)
  {
    var n := Made(fs, p);
    if p !in fs.dir {
      UsedAppend(Live(n), fs.sizes, 0);
      BlocksFit(0, 0);
      forall i | i in Named(n) ensures i in Live(fs) || i == |fs.sizes| {
        var q :| q in n.dir && n.dir[q] == i;
        if q != p {
          NamedIsLive(fs, q);
        }
      }
      UsedSubset(Live(n), Live(fs) + {|fs.sizes|}, fs.sizes);
      UsedOutside(Live(fs) + {|fs.sizes|}, Live(fs), fs.sizes);
    }
  }

  lemma EmptiedBound(fs: Fs, p: string)
    requires Valid(fs) && p in fs.dir
    ensures Count(Resize(fs, fs.dir[p], 0)) <= Count(fs)
  {
    NamedIsLive(fs, p);
    UsedGrow(Live(fs), fs.sizes, fs.dir[p], 0);
    assert Live(Resize(fs, fs.dir[p], 0)) == Live(fs);
    BlocksMonotone(0, fs.sizes[fs.dir[p]]);
  }

  lemma OpenedBound(fs: Fs, h: nat, p: string)
    requires h !in fs.open && p in fs.dir
    ensures Count(fs.(open := fs.open[h := fs.dir[p]])) <= Count(fs)
  {
    var o := fs.(open := fs.open[h := fs.dir[p]]);
    forall i | i in Opened(o) ensures i in Live(fs) {
      var k :| k in o.open && o.open[k] == i;
      if k == h {
        NamedIsLive(fs, p);
      } else {
        OpenIsLive(fs, k);
      }
    }
    DropBound(fs, o);
  }

  /** Opening, with creation and truncation, takes no blocks. */
  lemma OpenBound(fs: Fs, h: nat, p: string, create: bool, truncate: bool, done: bool)
    requires Valid(fs)
    ensures Count(Apply(fs, 0, Open(h, p, create, truncate, done))) <= Count(fs)
  {
    hide Count;
    if !(h in fs.open || (p !in fs.dir && !create)) {
      var made := Made(fs, p);
      MadeBound(fs, p);
      if !truncate {
        OpenedBound(made, h, p);
      } else if done {
        EmptiedBound(made, p);
        OpenedBound(Resize(made, made.dir[p], 0), h, p);
      }
    }
  }

  // ---- what goes with a name or a handle ------------------------------------------------

  /** An identity that is no longer alive takes exactly its blocks with it. */
  lemma DropExact(fs: Fs, n: Fs, id: nat)
    requires n.sizes == fs.sizes && id in Live(fs) && id < |fs.sizes| && Live(n) == Live(fs) - {id}
    ensures Count(n) + Blocks(fs.sizes[id]) == Count(fs)
  {
    UsedRemove(Live(fs), fs.sizes, id);
  }

  /** Removing a name frees the file's blocks exactly if nothing else keeps it. */
  lemma RemoveFrees(fs: Fs, path: string)
    requires Valid(fs)
    ensures Count(fs.(dir := fs.dir - {path})) + Blocks(Reclaimed(fs, path)) == Count(fs)
  {
    hide Count;
    var n := fs.(dir := fs.dir - {path});
    RemoveLive(fs, path);
    BlocksFit(0, 0);
    if path in fs.dir {
      var id := fs.dir[path];
      NamedIsLive(fs, path);
      RemovedNames(fs, path);
      if Retained(fs, path, id) {
        SameLive(fs, n);
      } else {
        assert Live(n) == Live(fs) - {id};
        DropExact(fs, n, id);
      }
    } else {
      assert n.dir == fs.dir;
    }
  }

  lemma SameLive(fs: Fs, n: Fs)
    requires Live(n) == Live(fs) && n.sizes == fs.sizes
    ensures Count(n) == Count(fs)
  {
  }

  lemma RemovedNames(fs: Fs, path: string)
    requires path in fs.dir
    ensures var n, id := fs.(dir := fs.dir - {path}), fs.dir[path];
            Live(n) == if Retained(fs, path, id) then Live(fs) else Live(fs) - {id}
  {
    var n, id := fs.(dir := fs.dir - {path}), fs.dir[path];
    RemoveLive(fs, path);
    forall i | i in Live(fs) && (i != id || Retained(fs, path, id)) ensures i in Live(n) {
      if i in Opened(fs) {
        assert i in Opened(n);
      } else {
        var p :| p in fs.dir && fs.dir[p] == i && p != path;
        assert p in n.dir && n.dir[p] == i;
      }
    }
    if !Retained(fs, path, id) {
      forall i | i in Live(n) ensures i != id {
        if i in Named(n) {
          var p :| p in n.dir && n.dir[p] == i;
          assert p in fs.dir && p != path;
        }
      }
    }
  }

  /** What renaming over `to` frees. */
  function Displaced(fs: Fs, from: string, to: string): nat
    requires Valid(fs)
  {
    if from in fs.dir && !(to in fs.dir && fs.dir[to] == fs.dir[from]) then Reclaimed(fs, to) else 0
  }

  /** Renaming frees the blocks of the file it displaces exactly if nothing else keeps it. */
  lemma RenameFrees(fs: Fs, from: string, to: string)
    requires Valid(fs) && from in fs.dir
    ensures Count(RenameTo(fs, from, to)) + Blocks(Displaced(fs, from, to)) == Count(fs)
  {
    hide Count;
    BlocksFit(0, 0);
    if !(to in fs.dir && fs.dir[to] == fs.dir[from]) {
      var m, n := fs.(dir := fs.dir - {to}), RenameTo(fs, from, to);
      RemoveFrees(fs, to);
      assert Live(n) == Live(m) by {
        MovedNames(fs, from, to);
      }
      SameLive(m, n);
    }
  }

  lemma MovedNames(fs: Fs, from: string, to: string)
    requires from in fs.dir && !(to in fs.dir && fs.dir[to] == fs.dir[from])
    ensures Live(RenameTo(fs, from, to)) == Live(fs.(dir := fs.dir - {to}))
  {
    var m, n := fs.(dir := fs.dir - {to}), RenameTo(fs, from, to);
    forall i | i in Named(n) ensures i in Named(m) {
      var p :| p in n.dir && n.dir[p] == i;
      var q := if p == to then from else p;
      assert q in m.dir && m.dir[q] == i;
    }
    forall i | i in Named(m) ensures i in Named(n) {
      var p :| p in m.dir && m.dir[p] == i;
      var q := if p == from then to else p;
      assert q in n.dir && n.dir[q] == i;
    }
  }

  /** Bytes that only handle h keeps alive. */
  function HandleOnly(fs: Fs, h: nat): nat
    requires Valid(fs)
  {
    if h in fs.open && fs.open[h] !in Named(fs) && fs.open[h] !in Opened(fs.(open := fs.open - {h}))
    then fs.sizes[fs.open[h]] else 0
  }

  /** Closing frees a file's blocks exactly if the handle was the last to keep it. */
  lemma CloseFrees(fs: Fs, h: nat)
    requires Valid(fs)
    ensures Count(fs.(open := fs.open - {h})) + Blocks(HandleOnly(fs, h)) == Count(fs)
  {
    hide Count;
    BlocksFit(0, 0);
    var n := fs.(open := fs.open - {h});
    CloseLive(fs, h);
    if h in fs.open {
      var id := fs.open[h];
      OpenIsLive(fs, h);
      forall i | i in Opened(fs) && i != id ensures i in Opened(n) {
        var k :| k in fs.open && fs.open[k] == i;
        assert k in n.open && n.open[k] == i;
      }
      if id in Live(n) {
        assert Live(n) == Live(fs);
        SameLive(fs, n);
      } else {
        assert Live(n) == Live(fs) - {id};
        DropExact(fs, n, id);
      }
    } else {
      assert n.open == fs.open;
    }
  }

  // ---- replacing a file ----------------------------------------------------------------

  function TempId(fs: Fs, temp: string): nat {
    if temp in fs.dir then fs.dir[temp] else |fs.sizes|
  }

  /** Apart from the temporary file itself, n keeps alive only identities of `kept`. */
  lemma TempBound(fs: Fs, temp: string, bytes: nat, n: Fs, kept: set<nat>)
    requires Valid(fs) && n.sizes == WithTemporary(fs, temp, bytes).sizes
    requires Live(n) <= kept + {TempId(fs, temp)}
    ensures Count(n) <= Used(kept, fs.sizes) + if TempId(fs, temp) in Live(n) then Blocks(bytes) else 0
  {
    var t, live := TempId(fs, temp), Live(n);
    if t in live {
      UsedRemove(live, n.sizes, t);
    } else {
      assert live - {t} == live;
    }
    if temp in fs.dir {
      UsedResize(live - {t}, fs.sizes, t, bytes);
    } else {
      UsedAppend(live - {t}, fs.sizes, bytes);
    }
    UsedSubset(live - {t}, kept, fs.sizes);
  }

  lemma WithTemporaryFacts(fs: Fs, temp: string, bytes: nat)
    requires Valid(fs)
    ensures Valid(WithTemporary(fs, temp, bytes))
    ensures var w := WithTemporary(fs, temp, bytes);
            temp in w.dir && w.dir[temp] == TempId(fs, temp) && w.open == fs.open &&
            w.dir == fs.dir[temp := TempId(fs, temp)] && Live(w) <= Live(fs) + {TempId(fs, temp)}
  {
    var w := WithTemporary(fs, temp, bytes);
    assert w.dir == fs.dir[temp := TempId(fs, temp)];
    forall i | i in Named(w) ensures i in Live(fs) || i == TempId(fs, temp) {
      var p :| p in w.dir && w.dir[p] == i;
      if p != temp {
        NamedIsLive(fs, p);
      }
    }
  }

  lemma RenamedLive(fs: Fs, path: string, count: nat)
    requires Valid(fs)
    ensures var n := RenameTo(WithTemporary(fs, Temporary(path), count), Temporary(path), path);
            var t := TempId(fs, Temporary(path));
            var gone := if path in fs.dir && !Retained(fs, path, fs.dir[path]) then {fs.dir[path]} else {};
            n.sizes == WithTemporary(fs, Temporary(path), count).sizes && Live(n) <= (Live(fs) - gone) + {t}
  {
    var temp := Temporary(path);
    var w, t := WithTemporary(fs, temp, count), TempId(fs, temp);
    WithTemporaryFacts(fs, temp, count);
    var n := RenameTo(w, temp, path);
    assert temp != path by {
      assert |temp| == |path| + 4;
    }
    RenameLive(w, temp, path);
    if path in fs.dir && !Retained(fs, path, fs.dir[path]) && fs.dir[path] != t {
      var id := fs.dir[path];
      forall p | p in n.dir ensures n.dir[p] != id {
        if p != path {
          assert p in w.dir && p != temp && n.dir[p] == w.dir[p] == fs.dir[p];
        }
      }
      assert id !in Opened(n);
      assert id !in Live(n);
    }
  }

  /** A successful Replace stays within the quota: the file it replaces gives its blocks
      back only when nothing else keeps them. */
  lemma ReplaceBound(fs: Fs, total: nat, path: string, count: nat)
    requires Valid(fs) && Sized(fs) && !AtClamp(fs, total, Reclaimed(fs, path))
    ensures Count(ReplaceFile(fs, total, path, count, Renamed)) <= Max(total, Count(fs))
  {
    var n := ReplaceFile(fs, total, path, count, Renamed);
    if n != fs {
      RenamedLive(fs, path, count);
      var gone := if path in fs.dir && !Retained(fs, path, fs.dir[path]) then {fs.dir[path]} else {};
      TempBound(fs, Temporary(path), count, n, Live(fs) - gone);
      BlocksFit(0, 0);
      if gone == {} {
        assert Live(fs) - gone == Live(fs);
      } else {
        NamedIsLive(fs, path);
        UsedRemove(Live(fs), fs.sizes, fs.dir[path]);
      }
      LimitExact(Free(fs, total), Reclaimed(fs, path));
    }
  }

  /** The name of the temporary file is taken by a file that something else keeps. */
  predicate TempRetained(fs: Fs, path: string) {
    Temporary(path) in fs.dir && Retained(fs, Temporary(path), fs.dir[Temporary(path)])
  }

  lemma FailedReplaceBound(fs: Fs, path: string, bytes: nat)
    requires Valid(fs) && !TempRetained(fs, path)
    ensures var temp := Temporary(path);
            var t := WithTemporary(fs, temp, bytes);
            Count(t.(dir := t.dir - {temp})) <= Count(fs)
  {
    var temp := Temporary(path);
    var w, t := WithTemporary(fs, temp, bytes), TempId(fs, temp);
    var n := w.(dir := w.dir - {temp});
    WithTemporaryFacts(fs, temp, bytes);
    RemoveLive(w, temp);
    assert t !in Live(n) by {
      forall p | p in n.dir ensures n.dir[p] != t {
        assert p != temp && p in fs.dir && n.dir[p] == fs.dir[p];
      }
      forall h | h in n.open ensures n.open[h] != t {
        assert fs.open[h] in Opened(fs);
      }
    }
    TempBound(fs, temp, bytes, n, Live(fs));
  }

  /** With the temporary name retained, a half-failed Replace changes the count by exactly
      the blocks it wrote there, whatever the quota says. */
  lemma FailedReplaceRetained(fs: Fs, path: string, bytes: nat)
    requires Valid(fs) && TempRetained(fs, path)
    ensures var temp := Temporary(path);
            var t := WithTemporary(fs, temp, bytes);
            Count(t.(dir := t.dir - {temp})) + Blocks(fs.sizes[fs.dir[temp]]) == Count(fs) + Blocks(bytes)
  {
    var temp := Temporary(path);
    var w, t := WithTemporary(fs, temp, bytes), fs.dir[temp];
    var n := w.(dir := w.dir - {temp});
    NamedIsLive(fs, temp);
    assert Live(n) == Live(fs) by {
      RemoveLive(w, temp);
      assert Live(w) == Live(fs);
      forall i | i in Named(fs) ensures i in Live(n) {
        if i == t && t !in Opened(fs) {
          var p :| p in fs.dir && p != temp && fs.dir[p] == t;
          assert p in n.dir && n.dir[p] == t;
        } else if i != t {
          var p :| p in fs.dir && fs.dir[p] == i;
          assert p in n.dir && n.dir[p] == i;
        }
      }
    }
    UsedGrow(Live(fs), fs.sizes, t, bytes);
  }

  // ---- runs --------------------------------------------------------------------------------

  /** What a Replace that fails half-way has put into its temporary file. */
  function Leftover(count: nat, outcome: Outcome): nat {
    match outcome
    case Partial(bytes) => Min(bytes, count)
    case NotRenamed => count
    case _ => 0
  }

  /** A Replace that fails half-way while something keeps its temporary file alive leaves no
      more there than the file had and the save has free. */
  predicate Tame(fs: Fs, total: nat, op: Op)
    requires Valid(fs)
  {
    (&& op.Replace? && (op.outcome.Partial? || op.outcome.NotRenamed?) && TempRetained(fs, op.path)
     && op.count <= Limit(Free(fs, total), Reclaimed(fs, op.path))) ==>
      Blocks(Leftover(op.count, op.outcome)) <= Blocks(fs.sizes[fs.dir[Temporary(op.path)]]) + Free(fs, total)
  }

  /** Exactly such a Replace respects the quota. */
  lemma FailedReplaceExact(fs: Fs, total: nat, path: string, bytes: nat)
    requires Valid(fs) && TempRetained(fs, path)
    ensures var temp := Temporary(path);
            var t := WithTemporary(fs, temp, bytes);
            Count(t.(dir := t.dir - {temp})) <= Max(total, Count(fs)) <==>
            Blocks(bytes) <= Blocks(fs.sizes[fs.dir[temp]]) + Free(fs, total)
  {
    hide Count, Live;
    FailedReplaceRetained(fs, path, bytes);
  }

  lemma ApplyValid(fs: Fs, total: nat, op: Op)
    requires Valid(fs)
    ensures Valid(Apply(fs, total, op)) && Apply(fs, total, op).quota == fs.quota
  {
    if op.Replace? {
      var temp := Temporary(op.path);
      WithTemporaryFacts(fs, temp, op.count);
      if op.outcome.Partial? {
        WithTemporaryFacts(fs, temp, Min(op.outcome.bytes, op.count));
      }
    }
  }

  lemma FailedStepBound(fs: Fs, total: nat, path: string, count: nat, outcome: Outcome)
    requires Valid(fs) && (outcome.Partial? || outcome.NotRenamed?)
    ensures Count(ReplaceFile(fs, total, path, count, outcome)) <= Max(total, Count(fs)) <==>
            Tame(fs, total, Replace(path, count, outcome))
  {
    hide Count, Live, Limit, Free, Reclaimed, WithTemporary, TempRetained;
    if count <= Limit(Free(fs, total), Reclaimed(fs, path)) {
      if TempRetained(fs, path) {
        FailedReplaceExact(fs, total, path, Leftover(count, outcome));
      } else {
        FailedReplaceBound(fs, path, Leftover(count, outcome));
      }
    }
  }

  /** Away from the clamp the exception is exact: an operation raises the count above the
      quota and above where it was if and only if it is no tame one. */
  lemma StepExact(fs: Fs, total: nat, op: Op)
    requires Valid(fs) && Sized(fs) && !AtClamp(fs, total, Asked(fs, op))
    ensures Count(Apply(fs, total, op)) <= Max(total, Count(fs)) <==> Tame(fs, total, op)
  {
    hide Count, Live, Limit, Free, AtClamp;
    if op.Replace? && (op.outcome.Partial? || op.outcome.NotRenamed?) {
      FailedStepBound(fs, total, op.path, op.count, op.outcome);
    } else {
      StepBound(fs, total, op);
    }
  }

  /** No single operation raises the count above the quota, or above where it already was. */
  lemma StepBound(fs: Fs, total: nat, op: Op)
    requires Valid(fs) && Sized(fs) && !AtClamp(fs, total, Asked(fs, op)) && Tame(fs, total, op)
    ensures Count(Apply(fs, total, op)) <= Max(total, Count(fs))
  {
    match op {
      case Write(h, position, count, wrote) =>
        if h in fs.open {
          var id := fs.open[h];
          OpenIsLive(fs, h);
          var granted := Granted(fs, total, id, position, count);
          if granted.Ok? && granted.value != 0 && wrote != 0 {
            GrowBound(fs, total, id, Max(fs.sizes[id], position + Min(wrote, granted.value)));
          }
        }
      case Truncate(h, length, done) =>
        if h in fs.open {
          OpenIsLive(fs, h);
          TruncateBound(fs, total, fs.open[h], length, done);
        }
      case TruncatePath(p, length, done) =>
        if p in fs.dir {
          NamedIsLive(fs, p);
          TruncateBound(fs, total, fs.dir[p], length, done);
        }
      case Replace(p, count, outcome) =>
        match outcome {
          case Renamed => ReplaceBound(fs, total, p, count);
          case NoTemporary =>
          case _ => FailedStepBound(fs, total, p, count, outcome);
        }
      case Remove(p) =>
        RemoveLive(fs, p);
        DropBound(fs, Apply(fs, total, op));
      case Rename(from, to) =>
        if from in fs.dir {
          RenameLive(fs, from, to);
          DropBound(fs, Apply(fs, total, op));
        }
      case Open(h, p, create, truncate, done) => OpenBound(fs, h, p, create, truncate, done);
      case Close(h) =>
        CloseLive(fs, h);
        DropBound(fs, Apply(fs, total, op));
    }
  }

  lemma SizedKept(fs: Fs, total: nat, op: Op)
    requires Valid(fs) && Sized(fs)
    ensures Sized(Apply(fs, total, op))
  {
    match op {
      case Truncate(h, length, done) =>
        if h in fs.open {
          LimitMaximum(Free(fs, total), fs.sizes[fs.open[h]]);
        }
      case TruncatePath(p, length, done) =>
        if p in fs.dir {
          LimitMaximum(Free(fs, total), fs.sizes[fs.dir[p]]);
        }
      case Replace(p, count, outcome) => LimitMaximum(Free(fs, total), Reclaimed(fs, p));
      case _ =>
    }
  }

  /** The exact condition on a state: no operation raises the count above the quota, or above
      where it already was, if and only if there is no file of exactly 2^48 - 1 blocks with
      nothing free. (The other exception, in Tame, apart.) */
  lemma ClampExact(fs: Fs, total: nat)
    requires Valid(fs) && Sized(fs)
    ensures (forall op :: Tame(fs, total, op) ==> Count(Apply(fs, total, op)) <= Max(total, Count(fs))) <==> Unclamped(fs, total)
  {
    hide Count, Live, Apply, Limit;
    if Unclamped(fs, total) {
      forall op | Tame(fs, total, op) ensures Count(Apply(fs, total, op)) <= Max(total, Count(fs)) {
        UnclampedAsked(fs, total, op);
        StepBound(fs, total, op);
      }
    } else {
      var i :| 0 <= i < |fs.sizes| && i in Live(fs) && AtClamp(fs, total, fs.sizes[i]);
      var op := ClampGrows(fs, total, i);
      assert Tame(fs, total, op);
    }
  }

  /** Every live file of 2^48 - 1 blocks with nothing free can be truncated to one block more. */
  lemma ClampGrows(fs: Fs, total: nat, i: nat) returns (op: Op)
    requires Valid(fs) && i in Live(fs) && i < |fs.sizes| && AtClamp(fs, total, fs.sizes[i])
    ensures (op.Truncate? || op.TruncatePath?) && op.length == MAXIMUM
    ensures Count(Apply(fs, total, op)) == Count(fs) + 1 > Max(total, Count(fs))
  {
    assert Limit(0, fs.sizes[i]) == MAXIMUM && Blocks(MAXIMUM) == MAX_BLOCKS + 1;
    UsedGrow(Live(fs), fs.sizes, i, MAXIMUM);
    assert Live(Resize(fs, i, MAXIMUM)) == Live(fs);
    if i in Opened(fs) {
      var h :| h in fs.open && fs.open[h] == i;
      op := Truncate(h, MAXIMUM, true);
    } else {
      var p :| p in fs.dir && fs.dir[p] == i;
      op := TruncatePath(p, MAXIMUM, true);
    }
  }

  /** No step of the run is one of the two exceptions. */
  predicate Orderly(fs: Fs, total: nat, ops: seq<Op>)
    requires Valid(fs)
    decreases |ops|
  {
    ops == [] ||
    (&& !AtClamp(fs, total, Asked(fs, ops[0])) && Tame(fs, total, ops[0])
     && (ApplyValid(fs, total, ops[0]); Orderly(Apply(fs, total, ops[0]), total, ops[1..])))
  }

  function Run(fs: Fs, total: nat, ops: seq<Op>): Fs
    requires Valid(fs)
    decreases |ops|
  {
    if ops == [] then fs else ApplyValid(fs, total, ops[0]); Run(Apply(fs, total, ops[0]), total, ops[1..])
  }

  /** Quota over whole runs, for every quota and every count: no orderly sequence of operations
      takes the count above both the quota and the count it started from. */
  lemma {:induction false} QuotaHolds(fs: Fs, total: nat, ops: seq<Op>)
    requires Valid(fs) && Sized(fs) && Orderly(fs, total, ops)
    ensures Count(Run(fs, total, ops)) <= Max(total, Count(fs))
    decreases |ops|
  {
    if ops != [] {
      ApplyValid(fs, total, ops[0]);
      SizedKept(fs, total, ops[0]);
      StepBound(fs, total, ops[0]);
      QuotaHolds(Apply(fs, total, ops[0]), total, ops[1..]);
    }
  }

  predicate TameRun(fs: Fs, total: nat, ops: seq<Op>)
    requires Valid(fs)
    decreases |ops|
  {
    ops == [] ||
    (Tame(fs, total, ops[0]) && (ApplyValid(fs, total, ops[0]); TameRun(Apply(fs, total, ops[0]), total, ops[1..])))
  }

  lemma FewBlocksUnclamped(fs: Fs, total: nat)
    requires Valid(fs) && Count(fs) < MAX_BLOCKS
    ensures Unclamped(fs, total)
  {
    forall i | 0 <= i < |fs.sizes| && i in Live(fs) ensures !AtClamp(fs, total, fs.sizes[i]) {
      LiveWithin(fs, i);
    }
  }

  /** A save that starts with fewer than 2^48 - 1 blocks under a quota below that never meets
      the clamp, whatever the operations. */
  lemma {:induction false} FewBlocksOrderly(fs: Fs, total: nat, ops: seq<Op>)
    requires Valid(fs) && Sized(fs) && total < MAX_BLOCKS && Count(fs) < MAX_BLOCKS && TameRun(fs, total, ops)
    ensures Orderly(fs, total, ops)
    decreases |ops|
  {
    if ops != [] {
      FewBlocksUnclamped(fs, total);
      UnclampedAsked(fs, total, ops[0]);
      ApplyValid(fs, total, ops[0]);
      SizedKept(fs, total, ops[0]);
      StepBound(fs, total, ops[0]);
      FewBlocksOrderly(Apply(fs, total, ops[0]), total, ops[1..]);
    }
  }

  // ---- where it does not hold ---------------------------------------------------------------

  /** The clamp to a signed 64-bit size lets one file of 2^48 - 1 blocks grow by a block in
      a save that is already over its quota. */
  lemma ClampExceedsQuota()
    ensures exists fs: Fs, op: Op ::
              && Valid(fs) && TotalOf(fs.quota) == Ok(60000) && Tame(fs, 60000, op)
              && Count(fs) == MAX_BLOCKS && Count(Apply(fs, 60000, op)) == MAX_BLOCKS + 1
  {
    var size := MAX_BLOCKS * BLOCK_SIZE;
    var fs := Fs(Absent, map["a" := 0], map[0 := 0], [size]);
    var op := Write(0, size, MAXIMUM - size, MAXIMUM - size);
    OpenIsLive(fs, 0);
    UsedRemove(Live(fs), fs.sizes, 0);
    NothingLeft(Live(fs) - {0}, fs.sizes);
    BlocksFit(size, MAX_BLOCKS);
    var n := Apply(fs, 60000, op);
    assert Granted(fs, 60000, 0, size, MAXIMUM - size) == Ok(MAXIMUM - size);
    assert n == Resize(fs, 0, MAXIMUM);
    UsedGrow(Live(fs), fs.sizes, 0, MAXIMUM);
    assert Live(n) == Live(fs);
    assert Valid(fs) && Tame(fs, 60000, op);
  }

  lemma NothingLeft(live: set<nat>, sizes: seq<nat>)
    requires |sizes| == 1 && 0 !in live
    ensures Used(live, sizes) == 0
  {
    assert sizes[..0] == [];
  }

  /** A Replace whose rename fails leaves its temporary file's identity alive when that
      name belonged to an open file: the replaced file's blocks were counted as freed, but
      are not. */
  lemma FailedReplaceExceedsQuota()
    ensures exists fs: Fs, op: Op ::
              && Valid(fs) && TotalOf(fs.quota) == Ok(96) && op.Replace? && op.outcome == NotRenamed
              && Count(fs) == 96 && Count(Apply(fs, 96, op)) == 192
  {
    var size := 96 * BLOCK_SIZE;
    var fs := Fs(Stored(96), map["a" := 0, "a.tmp" := 1], map[0 := 1], [size, 0]);
    var op := Replace("a", size, NotRenamed);
    assert Temporary("a") == "a.tmp";
    NamedIsLive(fs, "a");
    OpenIsLive(fs, 0);
    assert Live(fs) == {0, 1};
    TwoFiles(size, 0);
    assert Count(fs) == Blocks(size) + Blocks(0);
    BlocksFit(size, 96);
    BlocksFit(0, 0);
    assert !Retained(fs, "a", 0);
    assert Limit(Free(fs, 96), Reclaimed(fs, "a")) == size;
    var n := Apply(fs, 96, op);
    assert n.sizes == [size, size];
    assert Live(n) == {0, 1} by {
      NamedIsLive(n, "a");
      OpenIsLive(n, 0);
    }
    TwoFiles(size, size);
  }

  lemma TwoFiles(a: nat, b: nat)
    ensures Used({0, 1}, [a, b]) == Blocks(a) + Blocks(b)
  {
    UsedAppend({0, 1}, [], a);
    UsedAppend({0, 1}, [a], b);
    assert [] + [a] == [a] && [a] + [b] == [a, b];
  }
}
