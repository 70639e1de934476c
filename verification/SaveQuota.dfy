/** The block quota of a mounted save: every operation that can grow a file asks how much
    room is left first. Sizes are counted in 32 KiB blocks over distinct file identities,
    those with a name on disk and those only kept alive by an open handle.
 */
module SaveQuota {
  import opened Basics

  const BLOCK_SIZE: nat := 32768
  const MAXIMUM: nat := 0x7fff_ffff_ffff_ffff
  /** 2^48 - 1: the most whole blocks a signed 64-bit size can hold. */
  const MAX_BLOCKS: nat := MAXIMUM / BLOCK_SIZE

  datatype Error = EIO | EFBIG | ENOSPC | EINVAL | ENOENT
  datatype Result<T> = Ok(value: T) | Err(error: Error)

  /** The least number of blocks that holds `size` bytes. */
  function Blocks(size: nat): (n: nat)
    ensures size <= n * BLOCK_SIZE
    ensures n > 0 ==> (n - 1) * BLOCK_SIZE < size
  {
    size / BLOCK_SIZE + if size % BLOCK_SIZE != 0 then 1 else 0
  }

  lemma BlocksMonotone(a: nat, b: nat)
    requires a <= b
    ensures Blocks(a) <= Blocks(b)
  {
  }

  lemma BlocksFit(size: nat, n: nat)
    requires size <= n * BLOCK_SIZE
    ensures Blocks(size) <= n
  {
  }

  /** The quota file: absent, a well-formed total, or unreadable. */
  datatype Quota = Absent | Stored(blocks: nat) | Broken

  function TotalOf(q: Quota): Result<nat> {
    match q
    case Absent => Ok(60000)
    case Stored(n) => if n < 96 then Err(EIO) else Ok(n)
    case Broken => Err(EIO)
  }

  /** Identity i has size sizes[i]. `dir` gives every name's identity, `open` every tracked
      handle's. */
  datatype Fs = Fs(quota: Quota, dir: map<string, nat>, open: map<nat, nat>, sizes: seq<nat>)

  predicate Valid(fs: Fs) {
    && (forall p :: p in fs.dir ==> fs.dir[p] < |fs.sizes|)
    && (forall h :: h in fs.open ==> fs.open[h] < |fs.sizes|)
  }

  function Named(fs: Fs): set<nat> {
    set p | p in fs.dir :: fs.dir[p]
  }

  function Opened(fs: Fs): set<nat> {
    set h | h in fs.open :: fs.open[h]
  }

  function Live(fs: Fs): set<nat> {
    Named(fs) + Opened(fs)
  }

  /** Blocks of the identities in `live`, each once. */
  function Used(live: set<nat>, sizes: seq<nat>): nat {
    if sizes == [] then 0
    else
      var last := |sizes| - 1;
      Used(live, sizes[..last]) + if last in live then Blocks(sizes[last]) else 0
  }

  function Count(fs: Fs): nat {
    Used(Live(fs), fs.sizes)
  }

  // ---- counting ----------------------------------------------------------------------

  lemma {:induction false} UsedAppend(live: set<nat>, sizes: seq<nat>, v: nat)
    ensures Used(live, sizes + [v]) == Used(live, sizes) + if |sizes| in live then Blocks(v) else 0
  {
    assert (sizes + [v])[..|sizes|] == sizes;
  }

  lemma {:induction false} UsedSubset(a: set<nat>, b: set<nat>, sizes: seq<nat>)
    requires a <= b
    ensures Used(a, sizes) <= Used(b, sizes)
  {
    if sizes != [] {
      UsedSubset(a, b, sizes[..|sizes| - 1]);
    }
  }

  /** Taking one identity out takes exactly its blocks out. */
  lemma {:induction false} UsedRemove(live: set<nat>, sizes: seq<nat>, i: nat)
    requires i in live && i < |sizes|
    ensures Used(live, sizes) == Used(live - {i}, sizes) + Blocks(sizes[i])
  {
    var last := |sizes| - 1;
    if i == last {
      UsedOutside(live, live - {i}, sizes[..last]);
    } else {
      UsedRemove(live, sizes[..last], i);
    }
  }

  lemma {:induction false} UsedOutside(a: set<nat>, b: set<nat>, sizes: seq<nat>)
    requires forall i: nat :: i < |sizes| ==> (i in a <==> i in b)
    ensures Used(a, sizes) == Used(b, sizes)
  {
    if sizes != [] {
      UsedOutside(a, b, sizes[..|sizes| - 1]);
    }
  }

  lemma {:induction false} UsedResize(live: set<nat>, sizes: seq<nat>, i: nat, v: nat)
    requires i < |sizes| && i !in live
    ensures Used(live, sizes[i := v]) == Used(live, sizes)
  {
    var last := |sizes| - 1;
    if i == last {
      assert sizes[i := v][..last] == sizes[..last];
    } else {
      UsedResize(live, sizes[..last], i, v);
      assert sizes[i := v][..last] == sizes[..last][i := v];
    }
  }

  /** Growing one live identity to v. */
  lemma UsedGrow(live: set<nat>, sizes: seq<nat>, i: nat, v: nat)
    requires i in live && i < |sizes|
    ensures Used(live, sizes[i := v]) + Blocks(sizes[i]) == Used(live, sizes) + Blocks(v)
  {
    UsedRemove(live, sizes, i);
    UsedRemove(live, sizes[i := v], i);
    UsedResize(live - {i}, sizes, i, v);
  }

  // ---- what is left -------------------------------------------------------------------

  /** The accounting loop over the directory walk and the tracked handles: each identity
      counts once, however many names and handles it has, and the sum saturates at the
      quota instead of overflowing. */
  method InfoUnlocked(quota: Quota, onDisk: seq<nat>, handles: seq<nat>, sizes: seq<nat>)
    returns (r: Result<(nat, nat)>)
    requires forall i :: 0 <= i < |onDisk| ==> onDisk[i] < |sizes|
    requires forall i :: 0 <= i < |handles| ==> handles[i] < |sizes|
    ensures r.Err? <==> TotalOf(quota).Err?
    ensures r.Ok? ==> r.value.0 == TotalOf(quota).value &&
                      r.value.1 == r.value.0 - Min(r.value.0, Used(Elements(onDisk) + Elements(handles), sizes))
  {
    var q := TotalOf(quota);
    if q.Err? {
      return Err(q.error);
    }
    var total, used := q.value, 0;
    var counted: set<nat> := {};
    UsedNone(sizes);
    assert Elements(onDisk[..0]) == {};
    for i := 0 to |onDisk|
      invariant counted == Elements(onDisk[..i]) && used == Min(total, Used(counted, sizes))
    {
      ElementsSnoc(onDisk, i);
      used := Account(counted, sizes, onDisk[i], total, used);
      counted := counted + {onDisk[i]};
    }
    assert onDisk[..|onDisk|] == onDisk;
    assert Elements(handles[..0]) == {};
    for i := 0 to |handles|
      invariant counted == Elements(onDisk) + Elements(handles[..i]) && used == Min(total, Used(counted, sizes))
    {
      ElementsSnoc(handles, i);
      used := Account(counted, sizes, handles[i], total, used);
      counted := counted + {handles[i]};
    }
    assert handles[..|handles|] == handles;
    return Ok((total, total - used));
  }

  function Elements(s: seq<nat>): set<nat> {
    set x | x in s
  }

  lemma ElementsSnoc(s: seq<nat>, i: nat)
    requires i < |s|
    ensures Elements(s[..i + 1]) == Elements(s[..i]) + {s[i]}
  {
    assert s[..i + 1] == s[..i] + [s[i]];
  }

  lemma {:induction false} UsedNone(sizes: seq<nat>)
    ensures Used({}, sizes) == 0
  {
    if sizes != [] {
      UsedNone(sizes[..|sizes| - 1]);
    }
  }

  /** One identity of the accounting loop: a saturating addition, unless it is counted. */
  method Account(counted: set<nat>, sizes: seq<nat>, id: nat, total: nat, used: nat) returns (sum: nat)
    requires id < |sizes| && used == Min(total, Used(counted, sizes))
    ensures sum == Min(total, Used(counted + {id}, sizes))
  {
    sum := used;
    if id !in counted {
      UsedRemove(counted + {id}, sizes, id);
      assert counted + {id} - {id} == counted;
      sum := used + Min(Blocks(sizes[id]), total - used);
    } else {
      assert counted + {id} == counted;
    }
  }

  /** Blocks still free in the save. */
  function Free(fs: Fs, total: nat): nat {
    total - Min(total, Count(fs))
  }

  /** Largest size a file of `size` bytes may grow to. */
  function Limit(free: nat, size: nat): nat {
    var current := Blocks(size);
    if current >= MAX_BLOCKS || free > MAX_BLOCKS - current then MAXIMUM else (current + free) * BLOCK_SIZE
  }

  // ---- operations ------------------------------------------------------------------------

  /** How the file system behaves in Replace after the quota allowed it. */
  datatype Outcome = Renamed | NoTemporary | Partial(bytes: nat) | NotRenamed

  /** Host results are part of the operation: `wrote` bytes reached the file, `done` says
      whether the host performed the truncation it was asked for. */
  datatype Op =
    | Write(handle: nat, position: nat, count: nat, wrote: nat)
    | Truncate(handle: nat, length: nat, done: bool)
    | TruncatePath(path: string, length: nat, done: bool)
    | Replace(path: string, count: nat, outcome: Outcome)
    | Remove(path: string)
    | Rename(from: string, to: string)
    | Open(handle: nat, path: string, create: bool, truncate: bool, done: bool)
    | Close(handle: nat)

  /** Bytes Write may pass on, after the 64-bit check and the quota. */
  function Granted(fs: Fs, total: nat, id: nat, position: nat, count: nat): Result<nat>
    requires id < |fs.sizes|
  {
    if count == 0 then Ok(0)
    else if position > MAXIMUM || count > MAXIMUM - position then Err(EFBIG)
    else
      var limit := Limit(Free(fs, total), fs.sizes[id]);
      if position + count <= limit then Ok(count)
      else if position >= limit then Err(ENOSPC)
      else Ok(Min(count, limit - position))
  }

  function Resize(fs: Fs, id: nat, size: nat): Fs
    requires id < |fs.sizes|
  {
    fs.(sizes := fs.sizes[id := size])
  }

  function TruncateId(fs: Fs, total: nat, id: nat, length: nat, done: bool): Fs
    requires id < |fs.sizes|
  {
    if length > fs.sizes[id] && length > Limit(Free(fs, total), fs.sizes[id]) then fs
    else if done then Resize(fs, id, length) else fs
  }

  /** The identity keeps existing when `path` no longer names it. */
  predicate Retained(fs: Fs, path: string, id: nat) {
    id in Opened(fs) || exists p :: p in fs.dir && p != path && fs.dir[p] == id
  }

  /** Bytes that replacing `path` gives back. */
  function Reclaimed(fs: Fs, path: string): nat
    requires Valid(fs)
  {
    if path in fs.dir && !Retained(fs, path, fs.dir[path]) then fs.sizes[fs.dir[path]] else 0
  }

  function Temporary(path: string): string {
    path + ".tmp"
  }

  /** The temporary file is created, or an existing one of that name truncated, and has
      `bytes` bytes in it. */
  function WithTemporary(fs: Fs, temp: string, bytes: nat): Fs
    requires Valid(fs)
  {
    if temp in fs.dir then Resize(fs, fs.dir[temp], bytes)
    else fs.(dir := fs.dir[temp := |fs.sizes|], sizes := fs.sizes + [bytes])
  }

  function RenameTo(fs: Fs, from: string, to: string): Fs
    requires from in fs.dir
  {
    if to in fs.dir && fs.dir[to] == fs.dir[from] then fs
    else fs.(dir := (fs.dir - {from})[to := fs.dir[from]])
  }

  function ReplaceFile(fs: Fs, total: nat, path: string, count: nat, outcome: Outcome): Fs
    requires Valid(fs)
  {
    if count > Limit(Free(fs, total), Reclaimed(fs, path)) then fs
    else
      var temp := Temporary(path);
      match outcome
      case NoTemporary => fs
      case Partial(bytes) => var t := WithTemporary(fs, temp, Min(bytes, count)); t.(dir := t.dir - {temp})
      case NotRenamed => var t := WithTemporary(fs, temp, count); t.(dir := t.dir - {temp})
      case Renamed => RenameTo(WithTemporary(fs, temp, count), temp, path)
  }

  /** The path names a file, an empty one if there was none. */
  function Made(fs: Fs, path: string): (n: Fs)
    requires Valid(fs)
    ensures Valid(n) && path in n.dir && n.open == fs.open && n.quota == fs.quota
  {
    if path in fs.dir then fs
    else fs.(dir := fs.dir[path := |fs.sizes|], sizes := fs.sizes + [0])
  }

  function Apply(fs: Fs, total: nat, op: Op): Fs
    requires Valid(fs)
  {
    match op
    case Write(h, position, count, wrote) =>
      if h !in fs.open then fs
      else
        var id := fs.open[h];
        var granted := Granted(fs, total, id, position, count);
        if granted.Err? || granted.value == 0 || wrote == 0 then fs
        else Resize(fs, id, Max(fs.sizes[id], position + Min(wrote, granted.value)))
    case Truncate(h, length, done) => if h !in fs.open then fs else TruncateId(fs, total, fs.open[h], length, done)
    case TruncatePath(p, length, done) => if p !in fs.dir then fs else TruncateId(fs, total, fs.dir[p], length, done)
    case Replace(p, count, outcome) => ReplaceFile(fs, total, p, count, outcome)
    case Remove(p) => fs.(dir := fs.dir - {p})
    case Rename(from, to) => if from !in fs.dir then fs else RenameTo(fs, from, to)
    case Open(h, p, create, truncate, done) =>
      if h in fs.open || (p !in fs.dir && !create) then fs
      else
        var made := Made(fs, p);
        if truncate && !done then made
        else
          var cut := if truncate then Resize(made, made.dir[p], 0) else made;
          cut.(open := cut.open[h := cut.dir[p]])
    case Close(h) => fs.(open := fs.open - {h})
  }
}
