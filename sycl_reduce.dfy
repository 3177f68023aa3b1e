/** The host side of RAJA's SYCL reducers (`include/RAJA/policy/sycl/reduce.hpp`):
    the `minloc` / `maxloc` combiners, the per-team partial buffers of
    `Reduce_Data`, and the `TargetReduce` / `TargetReduceLoc` objects whose
    first `get()` folds the team partials and whose every `get()` combines
    the initial value with the accumulated one.

    The device buffer is an array handed to the constructor; the queue copies
    between host and device are element-wise copies between two arrays. */
module SyclReduce {
  import opened Operators
  import opened Scan

  /** Number of per-team partial results a reducer keeps. */
  const MaxNumTeams: nat := 256

  /** The location a location reducer reports before any value beat the identity. */
  const DefaultLoc: int := -1

  /** `Offload_Info`: a plain value, copied member by member. */
  datatype OffloadInfo = OffloadInfo(hostID: int, deviceID: int, isMapped: bool)

  /** `Offload_Info()`: host 1, device 2, not yet mapped back. */
  const DefaultOffloadInfo: OffloadInfo := OffloadInfo(1, 2, false)

  /** A value with the location it was found at. */
  datatype ValLoc = ValLoc(val: Int32, loc: int)

  /** `sycl::minloc` and `sycl::maxloc`. */
  datatype LocReducer = MinLoc | MaxLoc

  /** `identity`: the largest `int` for minloc, the smallest for maxloc. */
  function LocIdentity(r: LocReducer): (e: Int32)
    ensures forall v: Int32 :: !Better(r, e, v)
  {
    match r
    case MinLoc => INT_MAX
    case MaxLoc => INT_MIN
  }

  /** `v` is strictly better than `w`: smaller for minloc, larger for maxloc. */
  predicate Better(r: LocReducer, v: Int32, w: Int32)
  {
    match r
    case MinLoc => v < w
    case MaxLoc => v > w
  }

  /** `operator()(val, loc, v, l)`: the pair `(v, l)` replaces `(val, loc)`
      only when `v` is strictly better; on a tie the pair already held stays. */
  function LocCombine(r: LocReducer, a: ValLoc, b: ValLoc): (c: ValLoc)
    ensures c == a || c == b
    ensures !Better(r, a.val, c.val) && !Better(r, b.val, c.val)
    ensures !Better(r, b.val, a.val) ==> c == a
  {
    if Better(r, b.val, a.val) then b else a
  }

  /** Combining a sequence of pairs one after the other into `acc`. */
  function LocFold(r: LocReducer, acc: ValLoc, s: seq<ValLoc>): ValLoc
    decreases |s|
  {
    if s == [] then acc else LocCombine(r, LocFold(r, acc, s[..|s| - 1]), s[|s| - 1])
  }

  /** The pairs of a value buffer and a location buffer, slot by slot. */
  function Zip(vals: seq<Int32>, locs: seq<int>): (z: seq<ValLoc>)
    requires |vals| == |locs|
    ensures |z| == |vals| && forall i :: 0 <= i < |z| ==> z[i].val == vals[i] && z[i].loc == locs[i]
  {
    seq(|vals|, i requires 0 <= i < |vals| => ValLoc(vals[i], locs[i]))
  }

  /** A fold of pairs ends on the FIRST best pair: nothing is strictly better
      than the result; either the seed survives because no pair beats it, or
      the result is the pair at some index `j` that beats the seed and every
      pair before it. */
  lemma {:induction false} LocFoldIsFirstBest(r: LocReducer, acc: ValLoc, s: seq<ValLoc>)
    ensures !Better(r, acc.val, LocFold(r, acc, s).val)
    ensures forall j :: 0 <= j < |s| ==> !Better(r, s[j].val, LocFold(r, acc, s).val)
    ensures || (LocFold(r, acc, s) == acc && forall j :: 0 <= j < |s| ==> !Better(r, s[j].val, acc.val))
            || (exists j :: 0 <= j < |s| && LocFold(r, acc, s) == s[j] && Better(r, s[j].val, acc.val)
                  && forall i :: 0 <= i < j ==> Better(r, s[j].val, s[i].val))
    decreases |s|
  {
    if s != [] {
      var n := |s| - 1;
      var p := LocFold(r, acc, s[..n]);
      LocFoldIsFirstBest(r, acc, s[..n]);
      assert forall j :: 0 <= j < n ==> s[..n][j] == s[j];
      if Better(r, s[n].val, p.val) {
        assert LocFold(r, acc, s) == s[n];
        assert Better(r, s[n].val, acc.val);
        assert forall i :: 0 <= i < n ==> Better(r, s[n].val, s[i].val);
      } else {
        assert LocFold(r, acc, s) == p;
        if p == acc {
          assert forall j :: 0 <= j < |s| ==> !Better(r, s[j].val, acc.val);
        } else {
          var j :| 0 <= j < n && p == s[..n][j] && Better(r, s[..n][j].val, acc.val)
                   && forall i :: 0 <= i < j ==> Better(r, s[..n][j].val, s[..n][i].val);
          assert p == s[j];
        }
      }
    }
  }

  /** Combining is associative: grouping does not change which pair wins. */
  lemma LocCombineAssociative(r: LocReducer, a: ValLoc, b: ValLoc, c: ValLoc)
    ensures LocCombine(r, LocCombine(r, a, b), c) == LocCombine(r, a, LocCombine(r, b, c))
  {
  }

  /** Folding from the identity pair and then combining into `x` is the same
      as folding from `x`: the identity pair never beats anything. */
  lemma {:induction false} LocFoldReseed(r: LocReducer, x: ValLoc, s: seq<ValLoc>)
    ensures LocCombine(r, x, LocFold(r, ValLoc(LocIdentity(r), DefaultLoc), s)) == LocFold(r, x, s)
    decreases |s|
  {
    var e := ValLoc(LocIdentity(r), DefaultLoc);
    if s != [] {
      var n := |s| - 1;
      LocFoldReseed(r, x, s[..n]);
      LocCombineAssociative(r, x, LocFold(r, e, s[..n]), s[n]);
    }
  }

  /** Folding a concatenation folds the second part from where the first ended. */
  lemma {:induction false} LocFoldConcat(r: LocReducer, acc: ValLoc, a: seq<ValLoc>, b: seq<ValLoc>)
    ensures LocFold(r, acc, a + b) == LocFold(r, LocFold(r, acc, a), b)
    decreases |b|
  {
    if b == [] {
      assert a + b == a;
    } else {
      var n := |b| - 1;
      assert (a + b)[..|a + b| - 1] == a + b[..n];
      LocFoldConcat(r, acc, a, b[..n]);
    }
  }

  /** What the first `get()` of an untouched location reducer returns:
      the identity pair combined with the initial pair and then with the fold
      of the team partials is the fold of the initial pair followed by the
      partials, so it is their first best pair. */
  lemma LocGetIsFold(r: LocReducer, init: ValLoc, parts: seq<ValLoc>)
    ensures var e := ValLoc(LocIdentity(r), DefaultLoc);
            LocCombine(r, LocCombine(r, e, init), LocFold(r, e, parts)) == LocFold(r, e, [init] + parts)
  {
    var e := ValLoc(LocIdentity(r), DefaultLoc);
    LocFoldReseed(r, LocCombine(r, e, init), parts);
    LocFoldConcat(r, e, [init], parts);
    assert ([] + [init])[..0] == [];
    assert LocFold(r, e, [init]) == LocCombine(r, e, init);
  }

  /** What the first `get()` of an untouched reducer returns: the identity
      combined with the initial value and then with the fold of the team
      partials is the fold of the initial value followed by the partials. */
  lemma GetIsFold(op: Operator, init: Int32, parts: seq<Int32>)
    ensures Apply(op, Apply(op, Identity(op), init), Fold(op, Identity(op), parts))
            == Fold(op, Identity(op), [init] + parts)
  {
    IdentityNeutral(op, init);
    FoldReseed(op, init, parts);
    FoldConcat(op, Identity(op), [init], parts);
    assert [init][..0] == [];
  }

  /** `Reduce_Data<T>`: the value the host accumulates into, and the host and
      device buffers of per-team partials (null once cleaned up). */
  class ReduceData<T(0)> {
    var value: T
    var device: array?<T>
    var host: array?<T>

    /** Both buffers are live, distinct and `MaxNumTeams` long. */
    ghost predicate Allocated()
      reads this
    {
      host != null && device != null && host != device
      && host.Length == MaxNumTeams && device.Length == MaxNumTeams
    }

    /** `Reduce_Data(defaultValue, identityValue, info)`: `value` and every
        host slot start at the identity, and the host slots are copied to the
        device; `defaultValue` is not used. */
    constructor(defaultValue: T, identityValue: T, deviceBuffer: array<T>)
      requires deviceBuffer.Length == MaxNumTeams
      modifies deviceBuffer
      ensures Allocated() && fresh(host) && device == deviceBuffer
      ensures value == identityValue
      ensures forall i :: 0 <= i < MaxNumTeams ==> host[i] == identityValue && device[i] == identityValue
    {
      value := identityValue;
      device := deviceBuffer;
      var h := new T[MaxNumTeams];
      forall i | 0 <= i < MaxNumTeams {
        h[i] := identityValue;
      }
      host := h;
      new;
      HostToDevice();
    }

    /** `hostToDevice`: the device buffer receives the host slots. */
    method HostToDevice()
      requires Allocated()
      modifies device
      ensures device[..] == host[..]
    {
      forall i | 0 <= i < MaxNumTeams {
        device[i] := host[i];
      }
    }

    /** `deviceToHost`: the host buffer receives the device slots. */
    method DeviceToHost()
      requires Allocated()
      modifies host
      ensures host[..] == device[..] && device[..] == old(device[..])
    {
      forall i | 0 <= i < MaxNumTeams {
        host[i] := device[i];
      }
    }

    /** `cleanup`: both buffers are released and their pointers nulled; a
        second call finds nothing to release and changes nothing. */
    method Cleanup()
      modifies this
      ensures device == null && host == null && value == old(value)
      ensures old(device) == null && old(host) == null ==> unchanged(this)
    {
      if device != null {
        device := null;
      }
      if host != null {
        host := null;
      }
    }
  }

  /** `TargetReduce<Reducer, T>` over `int`, for the sum, min and max reducers. */
  class TargetReduce {
    const op: Operator
    var val: ReduceData<Int32>
    var info: OffloadInfo
    var initVal: Int32
    var finalVal: Int32

    /** Until the first `get()` the buffers are live and nothing has been
        accumulated on the host; afterwards `finalVal` holds what `get()`
        returned. */
    ghost predicate Valid()
      reads this, val
    {
      && (!info.isMapped ==> val.Allocated() && val.value == Identity(op))
      && (info.isMapped ==> finalVal == Apply(op, Apply(op, Identity(op), initVal), val.value))
    }

    /** `TargetReduce(init_val)`. */
    constructor(op: Operator, initVal: Int32, deviceBuffer: array<Int32>)
      requires deviceBuffer.Length == MaxNumTeams
      modifies deviceBuffer
      ensures Valid() && fresh(val) && fresh(val.host) && val.device == deviceBuffer
      ensures this.op == op && this.initVal == initVal && info == DefaultOffloadInfo
      ensures finalVal == Identity(op)
      ensures forall i :: 0 <= i < MaxNumTeams ==> val.device[i] == Identity(op)
    {
      this.op := op;
      info := DefaultOffloadInfo;
      val := new ReduceData(Identity(op), Identity(op), deviceBuffer);
      this.initVal := initVal;
      finalVal := Identity(op);
    }

    /** `operator T()` and its alias `get()`. The first call copies the team
        partials back, folds them into `val.value`, releases the buffers and
        marks the reducer mapped; every call returns the identity combined
        with the initial value and then with `val.value`. So the first call
        returns the fold of the initial value and all partials, and later
        calls return the same value again. */
    method Get() returns (result: Int32)
      requires Valid()
      modifies this, val, val.host
      ensures Valid() && info == old(info).(isMapped := true)
      ensures val == old(val) && initVal == old(initVal)
      ensures result == finalVal
      ensures !old(info.isMapped) ==>
                val.value == Fold(op, Identity(op), old(val.device[..]))
                && result == Fold(op, Identity(op), [initVal] + old(val.device[..]))
                && val.host == null && val.device == null
      ensures old(info.isMapped) ==> val.value == old(val.value) && result == old(finalVal)
    {
      if !info.isMapped {
        val.DeviceToHost();
        var i := 0;
        while i < MaxNumTeams
          invariant 0 <= i <= MaxNumTeams
          invariant val == old(val) && info == old(info) && initVal == old(initVal)
          invariant val.Allocated() && val.host[..] == old(val.device[..])
          invariant val.value == Fold(op, Identity(op), val.host[..i])
        {
          assert val.host[..i + 1][..i] == val.host[..i];
          val.value := Apply(op, val.value, val.host[i]);
          i := i + 1;
        }
        assert val.host[..MaxNumTeams] == val.host[..];
        GetIsFold(op, initVal, val.host[..]);
        val.Cleanup();
        info := info.(isMapped := true);
      }
      finalVal := Identity(op);
      finalVal := Apply(op, finalVal, initVal);
      finalVal := Apply(op, finalVal, val.value);
      result := finalVal;
    }
  }

  /** `TargetReduceLoc<Reducer, T, IndexType>` over `int` values and locations,
      for the minloc and maxloc reducers. */
  class TargetReduceLoc {
    const r: LocReducer
    var val: ReduceData<Int32>
    var loc: ReduceData<int>
    var info: OffloadInfo
    var initVal: Int32
    var finalVal: Int32
    var initLoc: int
    var finalLoc: int

    /** Until the first `get()` the four buffers are live and distinct. */
    ghost predicate Valid()
      reads this, val, loc
    {
      && val as object != loc as object
      && (!info.isMapped ==>
            && val.Allocated() && loc.Allocated()
            && val.host as object != loc.host as object
            && val.host as object != loc.device as object
            && val.device as object != loc.host as object)
    }

    /** The accumulated pair. */
    ghost function Accumulated(): ValLoc
      reads this, val, loc
    {
      ValLoc(val.value, loc.value)
    }

    /** `TargetReduceLoc(init_val, init_loc)`: the value buffers start at the
        identity and the location buffers at the default location. */
    constructor(r: LocReducer, initVal: Int32, initLoc: int, valDevice: array<Int32>, locDevice: array<int>)
      requires valDevice.Length == MaxNumTeams && locDevice.Length == MaxNumTeams
      modifies valDevice, locDevice
      ensures Valid() && fresh(val) && fresh(loc) && fresh(val.host) && fresh(loc.host)
      ensures val.device == valDevice && loc.device == locDevice
      ensures this.r == r && this.initVal == initVal && this.initLoc == initLoc && info == DefaultOffloadInfo
      ensures Accumulated() == ValLoc(LocIdentity(r), DefaultLoc)
      ensures finalVal == LocIdentity(r) && finalLoc == DefaultLoc
      ensures forall i :: 0 <= i < MaxNumTeams ==> valDevice[i] == LocIdentity(r)
      ensures forall i :: 0 <= i < MaxNumTeams ==> locDevice[i] == DefaultLoc
    {
      this.r := r;
      info := DefaultOffloadInfo;
      val := new ReduceData(LocIdentity(r), LocIdentity(r), valDevice);
      loc := new ReduceData(initLoc, DefaultLoc, locDevice);
      this.initVal := initVal;
      finalVal := LocIdentity(r);
      this.initLoc := initLoc;
      finalLoc := DefaultLoc;
    }

    /** The mapping step of `operator T()`: copies both buffers back, folds
        the team pairs into the accumulated pair in team order (each one as
        `reduce` would), releases the buffers and marks the reducer mapped. */
    method MapBack()
      requires Valid() && !info.isMapped
      modifies this, val, loc, val.host, loc.host
      ensures Valid() && info == old(info).(isMapped := true)
      ensures val == old(val) && loc == old(loc) && initVal == old(initVal) && initLoc == old(initLoc)
      ensures finalVal == old(finalVal) && finalLoc == old(finalLoc)
      ensures Accumulated() == LocFold(r, old(Accumulated()), Zip(old(val.device[..]), old(loc.device[..])))
      ensures val.host == null && val.device == null && loc.host == null && loc.device == null
    {
      val.DeviceToHost();
      loc.DeviceToHost();
      ghost var parts := Zip(val.host[..], loc.host[..]);
      ghost var acc0 := Accumulated();
      var i := 0;
      while i < MaxNumTeams
        invariant 0 <= i <= MaxNumTeams
        invariant unchanged(this)
        invariant Valid() && parts == Zip(val.host[..], loc.host[..])
        invariant Accumulated() == LocFold(r, acc0, parts[..i])
      {
        assert parts[..i + 1][..i] == parts[..i];
        Reduce(val.host[i], loc.host[i]);
        i := i + 1;
      }
      assert parts[..MaxNumTeams] == parts;
      val.Cleanup();
      loc.Cleanup();
      info := info.(isMapped := true);
    }

    /** `operator T()` and its alias `get()`. The first call maps the team
        pairs back (`MapBack`); every call sets `(finalVal, finalLoc)` to the
        identity pair combined with the initial pair and then with the
        accumulated pair, and returns `finalVal`. For a reducer nothing was
        reduced into on the host, the first call yields the first best pair
        among the initial pair and the team pairs. */
    method Get() returns (result: Int32)
      requires Valid()
      modifies this, val, loc, val.host, loc.host
      ensures Valid() && info == old(info).(isMapped := true)
      ensures val == old(val) && loc == old(loc) && initVal == old(initVal) && initLoc == old(initLoc)
      ensures !old(info.isMapped) ==>
                Accumulated() == LocFold(r, old(Accumulated()), Zip(old(val.device[..]), old(loc.device[..])))
      ensures old(info.isMapped) ==> Accumulated() == old(Accumulated())
      ensures ValLoc(finalVal, finalLoc)
              == LocCombine(r, LocCombine(r, ValLoc(LocIdentity(r), DefaultLoc), ValLoc(initVal, initLoc)), Accumulated())
      ensures result == finalVal
      ensures !old(info.isMapped) && old(Accumulated()) == ValLoc(LocIdentity(r), DefaultLoc) ==>
                ValLoc(finalVal, finalLoc)
                == LocFold(r, ValLoc(LocIdentity(r), DefaultLoc),
                           [ValLoc(initVal, initLoc)] + Zip(old(val.device[..]), old(loc.device[..])))
    {
      if !info.isMapped {
        ghost var parts := Zip(val.device[..], loc.device[..]);
        MapBack();
        LocGetIsFold(r, ValLoc(initVal, initLoc), parts);
      }
      var f := LocCombine(r, ValLoc(LocIdentity(r), DefaultLoc), ValLoc(initVal, initLoc));
      f := LocCombine(r, f, ValLoc(val.value, loc.value));
      finalVal, finalLoc := f.val, f.loc;
      result := finalVal;
    }

    /** `getLoc()`: maps the result back through `get()` only when that has
        not happened yet, and returns `finalLoc` as it stands; once mapped it
        reports the location of the last `get()`. */
    method GetLoc() returns (l: int)
      requires Valid()
      modifies this, val, loc, val.host, loc.host
      ensures Valid() && info.isMapped && l == finalLoc
      ensures old(info.isMapped) ==> unchanged(this) && unchanged(val) && unchanged(loc)
      ensures !old(info.isMapped) ==>
                Accumulated() == LocFold(r, old(Accumulated()), Zip(old(val.device[..]), old(loc.device[..])))
                && ValLoc(finalVal, l)
                   == LocCombine(r, LocCombine(r, ValLoc(LocIdentity(r), DefaultLoc), ValLoc(initVal, initLoc)), Accumulated())
    {
      if !info.isMapped {
        var _ := Get();
      }
      l := finalLoc;
    }

    /** `reduce(rhsVal, rhsLoc)`: combines the pair straight into the
        accumulated pair; nothing else changes. */
    method Reduce(rhsVal: Int32, rhsLoc: int)
      requires Valid()
      modifies val, loc
      ensures Valid()
      ensures Accumulated() == LocCombine(r, old(Accumulated()), ValLoc(rhsVal, rhsLoc))
      ensures val.host == old(val.host) && val.device == old(val.device)
      ensures loc.host == old(loc.host) && loc.device == old(loc.device)
    {
      var next := LocCombine(r, ValLoc(val.value, loc.value), ValLoc(rhsVal, rhsLoc));
      val.value, loc.value := next.val, next.loc;
    }
  }
}
