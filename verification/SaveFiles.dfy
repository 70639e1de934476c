/** The operations on the files of a mounted save, changing the file system step by step.
    Each asks the quota first where it can grow a file. What the host does (how many bytes
    it writes, whether a call succeeds) is a parameter.
 */
module SaveFiles {
  import opened Basics
  import opened SaveQuota
  import opened SaveQuotaTheorems

  /** What the names or handles of a map stand for, in some order. */
  method Identities<K(==)>(m: map<K, nat>) returns (ids: seq<nat>)
    ensures forall x :: x in ids <==> x in m.Values
  {
    ids := [];
    var rest := m.Keys;
    while rest != {}
      invariant rest <= m.Keys
      invariant forall x :: x in ids ==> x in m.Values
      invariant forall k :: k in m && k !in rest ==> m[k] in ids
      decreases |rest|
    {
      var k :| k in rest;
      ids, rest := ids + [m[k]], rest - {k};
    }
  }

  lemma ValuesOf(fs: Fs, onDisk: seq<nat>, handles: seq<nat>)
    requires Valid(fs)
    requires forall x :: x in onDisk <==> x in fs.dir.Values
    requires forall x :: x in handles <==> x in fs.open.Values
    ensures Elements(onDisk) == Named(fs) && Elements(handles) == Opened(fs)
    ensures forall i :: 0 <= i < |onDisk| ==> onDisk[i] < |fs.sizes|
    ensures forall i :: 0 <= i < |handles| ==> handles[i] < |fs.sizes|
  {
    forall i | 0 <= i < |onDisk| ensures onDisk[i] < |fs.sizes| {
      assert onDisk[i] in fs.dir.Values;
    }
    forall i | 0 <= i < |handles| ensures handles[i] < |fs.sizes| {
      assert handles[i] in fs.open.Values;
    }
  }

  /** Unless the size whose limit was asked for is at the clamp, the save stays within its
      quota, or no further outside it than it was. */
  ghost predicate Respects(before: Fs, after: Fs, asked: nat) {
    TotalOf(before.quota).Ok? && Sized(before) && !AtClamp(before, TotalOf(before.quota).value, asked) ==>
      Count(after) <= Max(TotalOf(before.quota).value, Count(before))
  }

  /** With a readable quota the change is that of `op`; without one there is none. */
  ghost predicate Performs(before: Fs, after: Fs, op: Op)
    requires Valid(before)
  {
    match TotalOf(before.quota)
    case Ok(total) => after == Apply(before, total, op)
    case Err(_) => after == before
  }

  lemma PerformedRespects(before: Fs, after: Fs, op: Op)
    requires Valid(before) && Performs(before, after, op)
    requires TotalOf(before.quota).Ok? ==> Tame(before, TotalOf(before.quota).value, op)
    ensures Valid(after) && Respects(before, after, Asked(before, op))
  {
    hide Apply, Count, AtClamp, Sized;
    match TotalOf(before.quota) {
      case Ok(total) =>
        ApplyValid(before, total, op);
        if Sized(before) && !AtClamp(before, total, Asked(before, op)) {
          StepBound(before, total, op);
        }
      case Err(_) =>
    }
  }

  /** What Write returns: the bytes granted if all of them were written, else none. */
  function WriteResult(fs: Fs, id: nat, position: nat, count: nat, wrote: nat): Result<nat>
    requires id < |fs.sizes|
  {
    match TotalOf(fs.quota)
    case Ok(total) =>
      var granted := Granted(fs, total, id, position, count);
      if granted.Ok? && wrote < granted.value then Ok(0) else granted
    case Err(e) =>
      if count == 0 then Ok(0)
      else if position > MAXIMUM || count > MAXIMUM - position then Err(EFBIG)
      else Err(e)
  }

  /** The host's answer to a truncation; of its errors only two are passed on. */
  function HostResult(host: Option<Error>): Result<nat> {
    match host
    case None => Ok(0)
    case Some(e) => if e == ENOSPC || e == EFBIG then Err(e) else Err(EIO)
  }

  /** What a truncation returns: growth asks the quota, and the host has to perform it. */
  function TruncateResult(fs: Fs, id: nat, length: int, host: Option<Error>): Result<nat>
    requires id < |fs.sizes|
  {
    if length < 0 then Err(EINVAL)
    else if length <= fs.sizes[id] then HostResult(host)
    else
      match TotalOf(fs.quota)
      case Ok(total) => if Allowed(fs, total, fs.sizes[id], length) then HostResult(host) else Err(ENOSPC)
      case Err(e) => Err(e)
  }

  /** A write of file `id`, told in blocks: the longest allowed part of it is passed on, the
      answer is that part's length if the host wrote it all, and the file reaches as far as
      the host wrote, or as far as before. */
  ghost predicate Written(before: Fs, id: nat, position: nat, count: nat, wrote: nat, r: Result<nat>, after: Fs)
    requires id < |before.sizes|
  {
    if count == 0 then r == Ok(0) && after == before
    else if position + count > MAXIMUM then r == Err(EFBIG) && after == before
    else
      match TotalOf(before.quota)
      case Err(e) => r == Err(e) && after == before
      case Ok(total) =>
        exists k ::
          && Longest(before, total, before.sizes[id], position, count, k)
          && r == (if k == 0 then Err(ENOSPC) else if wrote < k then Ok(0) else Ok(k))
          && SizeIs(before, after, id, if k == 0 || wrote == 0 then before.sizes[id]
                                       else Max(before.sizes[id], position + Min(wrote, k)))
  }

  /** File `id` has `size` bytes afterwards; nothing else has changed. */
  predicate SizeIs(before: Fs, after: Fs, id: nat, size: nat)
    requires id < |before.sizes|
  {
    && after.quota == before.quota && after.dir == before.dir && after.open == before.open
    && |after.sizes| == |before.sizes| && after.sizes[id] == size
    && (forall i :: 0 <= i < |before.sizes| && i != id ==> after.sizes[i] == before.sizes[i])
  }

  /** A write whose final size is allowed is passed on in full. */
  lemma WrittenInFull(before: Fs, id: nat, position: nat, count: nat, wrote: nat, r: Result<nat>, after: Fs)
    requires id < |before.sizes| && Written(before, id, position, count, wrote, r, after)
    requires count > 0 && TotalOf(before.quota).Ok?
    requires Allowed(before, TotalOf(before.quota).value, before.sizes[id], position + count)
    ensures r == if wrote < count then Ok(0) else Ok(count)
  {
    hide Allowed;
    var total := TotalOf(before.quota).value;
    AllowedIsSigned(before, total, before.sizes[id], position + count);
    var k :| Longest(before, total, before.sizes[id], position, count, k) &&
             r == (if k == 0 then Err(ENOSPC) else if wrote < k then Ok(0) else Ok(k));
    assert Longest(before, total, before.sizes[id], position, count, count);
    LongestIsUnique(before, total, before.sizes[id], position, count, count, k);
  }

  lemma AllowedIsSigned(fs: Fs, total: nat, size: nat, n: nat)
    requires Allowed(fs, total, size, n)
    ensures n <= MAXIMUM
  {
  }

  /** Every name but those of `touched` stands for what it stood for before. */
  ghost predicate NamesKept(before: Fs, after: Fs, touched: set<string>) {
    forall p :: p !in touched ==>
      && (p in before.dir <==> p in after.dir)
      && (p in before.dir ==> after.dir[p] == before.dir[p])
  }

  /** Every file there was, except `id`, has the size it had. */
  predicate SizesKept(before: Fs, after: Fs, id: nat) {
    && |before.sizes| <= |after.sizes|
    && (forall i :: 0 <= i < |before.sizes| && i != id ==> after.sizes[i] == before.sizes[i])
  }

  class SaveMount {
    var fs: Fs

    constructor (start: Fs)
      ensures fs == start
    {
      fs := start;
    }

    method Info() returns (r: Result<(nat, nat)>)
      requires Valid(fs)
      ensures r == match TotalOf(fs.quota) case Ok(total) => Ok((total, Free(fs, total))) case Err(e) => Err(e)
    {
      hide Used, Elements;
      var onDisk := Identities(fs.dir);
      var handles := Identities(fs.open);
      ValuesOf(fs, onDisk, handles);
      r := InfoUnlocked(fs.quota, onDisk, handles, fs.sizes);
      if r.Err? {
        return Err(TotalOf(fs.quota).error);
      }
      assert Elements(onDisk) + Elements(handles) == Live(fs);
    }

    method LimitOf(size: nat) returns (r: Result<nat>)
      requires Valid(fs)
      ensures r == match TotalOf(fs.quota) case Ok(total) => Ok(Limit(Free(fs, total), size)) case Err(e) => Err(e)
    {
      hide Free, Limit;
      var info := Info();
      if info.Err? {
        return Err(info.error);
      }
      return Ok(Limit(info.value.1, size));
    }

    /** How large the replacement of a path may be: the old file's blocks come back only if
        no other name and no handle keeps its identity. */
    method ReplaceLimit(path: string) returns (r: Result<nat>)
      requires Valid(fs)
      ensures r == match TotalOf(fs.quota)
                   case Ok(total) => Ok(Limit(Free(fs, total), Reclaimed(fs, path)))
                   case Err(e) => Err(e)
    {
      hide Free, Limit;
      var size := 0;
      if path in fs.dir {
        var id := fs.dir[path];
        size := fs.sizes[id];
        var retained := exists p :: p in fs.dir && p != path && fs.dir[p] == id;
        var handles := Identities(fs.open);
        for i := 0 to |handles|
          invariant retained <==> (exists p :: p in fs.dir && p != path && fs.dir[p] == id) || id in handles[..i]
        {
          assert handles[..i + 1] == handles[..i] + [handles[i]];
          retained := retained || handles[i] == id;
        }
        assert handles[..|handles|] == handles;
        assert id in handles <==> id in Opened(fs);
        if retained {
          size := 0;
        }
      }
      r := LimitOf(size);
    }

    method Write(h: nat, position: nat, count: nat, wrote: nat) returns (r: Result<nat>)
      requires Valid(fs)
      modifies this
      ensures Valid(fs) && Performs(old(fs), fs, Op.Write(h, position, count, wrote))
      ensures Respects(old(fs), fs, Asked(old(fs), Op.Write(h, position, count, wrote)))
      ensures h in old(fs).open ==> r == WriteResult(old(fs), old(fs).open[h], position, count, wrote)
      ensures h in old(fs).open ==> Written(old(fs), old(fs).open[h], position, count, wrote, r, fs)
    {
      hide Count, AtClamp, Limit, Free, Longest;
      ghost var op := Op.Write(h, position, count, wrote);
      if h in fs.open && count != 0 {
        var id := fs.open[h];
        if position > MAXIMUM || count > MAXIMUM - position {
          PerformedRespects(fs, fs, op);
          return Err(EFBIG);
        }
        var limit := LimitOf(fs.sizes[id]);
        if limit.Err? {
          PerformedRespects(fs, fs, op);
          return Err(limit.error);
        }
        ghost var k := GrantedIsLongest(fs, TotalOf(fs.quota).value, id, position, count);
        var size := count;
        if position + size > limit.value {
          if position >= limit.value {
            PerformedRespects(fs, fs, op);
            return Err(ENOSPC);
          }
          size := Min(size, limit.value - position);
        }
        if wrote != 0 {
          fs := Resize(fs, id, Max(fs.sizes[id], position + Min(wrote, size)));
        }
        PerformedRespects(old(fs), fs, op);
        return if wrote < size then Ok(0) else Ok(size);
      }
      PerformedRespects(fs, fs, op);
      return Ok(0);
    }

    /** Truncation of one identity; only growth asks the quota. */
    method TruncateUnlocked(id: nat, length: int, host: Option<Error>) returns (r: Result<nat>)
      requires Valid(fs) && id < |fs.sizes|
      modifies this
      ensures r == TruncateResult(old(fs), id, length, host)
      ensures r.Ok? ==> length >= 0
      ensures fs == if r.Ok? then Resize(old(fs), id, length) else old(fs)
      ensures r.Ok? ==> SizeIs(old(fs), fs, id, length)
      ensures TotalOf(old(fs).quota).Ok? && length >= 0 ==>
                fs == TruncateId(old(fs), TotalOf(old(fs).quota).value, id, length, host.None?)
    {
      hide Limit, Free, Allowed;
      if length < 0 {
        return Err(EINVAL);
      }
      if length > fs.sizes[id] {
        if TotalOf(fs.quota).Ok? {
          LimitIsLargest(fs, TotalOf(fs.quota).value, fs.sizes[id], length);
        }
        var limit := LimitOf(fs.sizes[id]);
        if limit.Err? {
          return Err(limit.error);
        }
        if length > limit.value {
          return Err(ENOSPC);
        }
      }
      r := HostResult(host);
      if r.Ok? {
        fs := Resize(fs, id, length);
      }
    }

    method Truncate(h: nat, length: int, host: Option<Error>) returns (r: Result<nat>)
      requires Valid(fs)
      modifies this
      ensures Valid(fs) && Respects(old(fs), fs, if h in old(fs).open then old(fs).sizes[old(fs).open[h]] else 0)
      ensures r == if h in old(fs).open then TruncateResult(old(fs), old(fs).open[h], length, host) else Err(ENOENT)
      ensures r.Ok? ==> length >= 0
      ensures fs == if r.Ok? then Resize(old(fs), old(fs).open[h], length) else old(fs)
      ensures r.Ok? ==> SizeIs(old(fs), fs, old(fs).open[h], length)
    {
      hide Count, AtClamp, Limit, Free;
      r := Err(ENOENT);
      if h in fs.open {
        r := TruncateUnlocked(fs.open[h], length, host);
      }
      if TotalOf(old(fs).quota).Ok? && length >= 0 {
        PerformedRespects(old(fs), fs, Op.Truncate(h, length, host.None?));
      }
    }

    /** The same by name. */
    method TruncatePath(path: string, length: int, host: Option<Error>) returns (r: Result<nat>)
      requires Valid(fs)
      modifies this
      ensures Valid(fs) && Respects(old(fs), fs, if path in old(fs).dir then old(fs).sizes[old(fs).dir[path]] else 0)
      ensures r == if length < 0 then Err(EINVAL)
                   else if path in old(fs).dir then TruncateResult(old(fs), old(fs).dir[path], length, host)
                   else Err(ENOENT)
      ensures r.Ok? ==> length >= 0
      ensures fs == if r.Ok? then Resize(old(fs), old(fs).dir[path], length) else old(fs)
      ensures r.Ok? ==> SizeIs(old(fs), fs, old(fs).dir[path], length)
    {
      hide Count, AtClamp, Limit, Free;
      if length < 0 {
        return Err(EINVAL);
      }
      r := Err(ENOENT);
      if path in fs.dir {
        r := TruncateUnlocked(fs.dir[path], length, host);
      }
      if TotalOf(old(fs).quota).Ok? {
        PerformedRespects(old(fs), fs, Op.TruncatePath(path, length, host.None?));
      }
    }

    /** Writes a whole file through a temporary one. */
    method Replace(path: string, count: nat, outcome: Outcome) returns (r: Result<nat>)
      requires Valid(fs)
      modifies this
      ensures Valid(fs) && Performs(old(fs), fs, Op.Replace(path, count, outcome))
      ensures (TotalOf(old(fs).quota).Ok? ==>
                 Tame(old(fs), TotalOf(old(fs).quota).value, Op.Replace(path, count, outcome))) ==>
                Respects(old(fs), fs, Reclaimed(old(fs), path))
      ensures r == match TotalOf(old(fs).quota)
                   case Err(e) => Err(e)
                   case Ok(total) =>
                     if !Allowed(old(fs), total, Reclaimed(old(fs), path), count) then Err(ENOSPC)
                     else if outcome.Renamed? then Ok(0) else Err(EIO)
      ensures r.Ok? ==> path in fs.dir && fs.sizes[fs.dir[path]] == count
      ensures r == Err(ENOSPC) ==> fs == old(fs)
      ensures fs.open == old(fs).open && NamesKept(old(fs), fs, {path, Temporary(path)})
      ensures r.Err? && path in old(fs).dir ==> path in fs.dir && fs.dir[path] == old(fs).dir[path]
      ensures SizesKept(old(fs), fs, TempId(old(fs), Temporary(path)))
    {
      hide Count, AtClamp, Limit, Free, Reclaimed, TempRetained, Allowed;
      ghost var op := Op.Replace(path, count, outcome);
      var limit := ReplaceLimit(path);
      if limit.Err? {
        return Err(limit.error);
      }
      LimitIsLargest(fs, TotalOf(fs.quota).value, Reclaimed(fs, path), count);
      assert Temporary(path) != path by {
        assert |Temporary(path)| == |path| + 4;
      }
      if count > limit.value {
        r := Err(ENOSPC);
      } else if outcome.NoTemporary? {
        r := Err(EIO);
      } else {
        var temp := Temporary(path);
        var bytes := if outcome.Partial? then Min(outcome.bytes, count) else count;
        WithTemporaryFacts(fs, temp, bytes);
        fs := WithTemporary(fs, temp, bytes);
        if outcome.Renamed? {
          fs := RenameTo(fs, temp, path);
          r := Ok(0);
        } else {
          fs := fs.(dir := fs.dir - {temp});
          r := Err(EIO);
        }
      }
      ApplyValid(old(fs), TotalOf(old(fs).quota).value, op);
      if Tame(old(fs), TotalOf(old(fs).quota).value, op) {
        PerformedRespects(old(fs), fs, op);
      }
    }

    /** The name goes; the file's blocks go with it if nothing else keeps it. */
    method Remove(path: string) returns (r: Result<nat>)
      requires Valid(fs)
      modifies this
      ensures Valid(fs) && fs == Apply(old(fs), 0, Op.Remove(path))
      ensures Count(fs) + Blocks(Reclaimed(old(fs), path)) == Count(old(fs))
      ensures path !in fs.dir && NamesKept(old(fs), fs, {path})
      ensures fs.open == old(fs).open && fs.sizes == old(fs).sizes
      ensures r == if path in old(fs).dir then Ok(0) else Err(ENOENT)
    {
      hide Count;
      r := if path in fs.dir then Ok(0) else Err(ENOENT);
      fs := fs.(dir := fs.dir - {path});
      RemoveFrees(old(fs), path);
    }

    /** A file that the new name displaces goes if nothing else keeps it. */
    method Rename(from: string, to: string) returns (r: Result<nat>)
      requires Valid(fs)
      modifies this
      ensures Valid(fs) && fs == Apply(old(fs), 0, Op.Rename(from, to))
      ensures Count(fs) + Blocks(Displaced(old(fs), from, to)) == Count(old(fs))
      ensures r == if from in old(fs).dir then Ok(0) else Err(ENOENT)
      ensures NamesKept(old(fs), fs, if r.Ok? then {from, to} else {})
      ensures r.Ok? ==> to in fs.dir && fs.dir[to] == old(fs).dir[from]
      ensures r.Ok? ==> (from in fs.dir <==> to in old(fs).dir && old(fs).dir[to] == old(fs).dir[from])
      ensures r.Ok? && from in fs.dir ==> fs.dir[from] == old(fs).dir[from]
      ensures fs.open == old(fs).open && fs.sizes == old(fs).sizes
    {
      hide Count;
      BlocksFit(0, 0);
      r := Err(ENOENT);
      if from in fs.dir {
        fs := RenameTo(fs, from, to);
        RenameFrees(old(fs), from, to);
        r := Ok(0);
      }
    }

    /** Opens for writing; a new or truncated file is empty and needs no room. A truncation
        the host does not perform leaves the file unopened, a new one in place. */
    method OpenWritable(h: nat, path: string, create: bool, truncate: bool, done: bool) returns (ok: bool)
      requires Valid(fs) && h !in fs.open
      modifies this
      ensures Valid(fs) && fs == Apply(old(fs), 0, Op.Open(h, path, create, truncate, done))
      ensures Count(fs) <= Count(old(fs))
      ensures ok <==> (path in old(fs).dir || create) && !(truncate && !done)
      ensures ok <==> h in fs.open
      ensures fs.open == if ok then old(fs).open[h := fs.dir[path]] else old(fs).open
      ensures NamesKept(old(fs), fs, if path in old(fs).dir || !create then {} else {path})
      ensures path !in old(fs).dir && create ==> path in fs.dir && fs.dir[path] == |old(fs).sizes|
      ensures fs.sizes == if path !in old(fs).dir then (if create then old(fs).sizes + [0] else old(fs).sizes)
                          else if ok && truncate then old(fs).sizes[old(fs).dir[path] := 0] else old(fs).sizes
    {
      hide Count;
      OpenBound(fs, h, path, create, truncate, done);
      if path !in fs.dir {
        if !create {
          return false;
        }
        fs := fs.(dir := fs.dir[path := |fs.sizes|], sizes := fs.sizes + [0]);
      }
      if truncate {
        if !done {
          return false;
        }
        fs := Resize(fs, fs.dir[path], 0);
      }
      fs := fs.(open := fs.open[h := fs.dir[path]]);
      return true;
    }

    /** An unlinked file goes with its last handle. */
    method Close(h: nat)
      requires Valid(fs)
      modifies this
      ensures Valid(fs) && fs == Apply(old(fs), 0, Op.Close(h))
      ensures Count(fs) + Blocks(HandleOnly(old(fs), h)) == Count(old(fs))
      ensures h !in fs.open && fs.dir == old(fs).dir && fs.sizes == old(fs).sizes
      ensures forall k :: k != h ==> (k in fs.open <==> k in old(fs).open)
      ensures forall k :: k in fs.open ==> k in old(fs).open && fs.open[k] == old(fs).open[k]
    {
      hide Count;
      fs := fs.(open := fs.open - {h});
      CloseFrees(old(fs), h);
    }
  }
}
