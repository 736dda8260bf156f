/** The descriptor table of a process.  The allocator caches one number, the least unused descriptor,
    and searches upwards only for the next one.  Descriptors are 32-bit and counting past the top wraps. */
module FileArray {
  import opened Wrappers

  const LIMIT: nat := 0x1_0000_0000

  datatype OpenFile = OpenFile(cloexec: bool, file: nat)

  type Files = map<nat, OpenFile>

  datatype Outcome<+T> = Ok(value: T) | BadFd | Panic

  /** The least unused descriptor at or above one. */
  ghost predicate IsLeast(used: set<nat>, from: nat, r: nat) {
    from <= r < LIMIT && r !in used && forall f: nat | from <= f < r :: f in used
  }

  ghost predicate Room(used: set<nat>, from: nat) { exists f: nat :: from <= f < LIMIT && f !in used }

  /** The first gap in a run of used descriptors; past the top the count has wrapped to zero. */
  function FirstGap(used: set<nat>, from: nat): (gap: nat)
    requires from < LIMIT
    ensures gap < LIMIT
    decreases LIMIT - from
  {
    if from !in used then from else if from + 1 == LIMIT then 0 else FirstGap(used, from + 1)
  }

  lemma {:induction false} FirstGapIsLeast(used: set<nat>, from: nat)
    requires from < LIMIT
    ensures Room(used, from) ==> IsLeast(used, from, FirstGap(used, from))
    ensures !Room(used, from) ==> FirstGap(used, from) == 0
    decreases LIMIT - from
  {
    if from in used {
      if from + 1 < LIMIT {
        FirstGapIsLeast(used, from + 1);
        if Room(used, from) {
          var f: nat :| from <= f < LIMIT && f !in used;
          assert from + 1 <= f;
        }
      }
    }
  }

  /** There is room unless nearly every descriptor is open. */
  lemma {:induction false} RoomIfFew(used: set<nat>, from: nat)
    requires |used| + from < LIMIT
    ensures Room(used, from)
    decreases |used|
  {
    if from in used {
      RoomIfFew(used - {from}, from + 1);
      var f: nat :| from + 1 <= f < LIMIT && f !in used - {from};
      assert f !in used;
    }
  }

  function Next(fd: nat): nat { if fd + 1 == LIMIT then 0 else fd + 1 }

  /** Above the cached number only open files count. */
  lemma SameRoom(files: set<nat>, used: set<nat>, min: nat, from: nat)
    requires files <= used && min <= from && forall f | f in used && f !in files :: f < min
    ensures Room(files, from) <==> Room(used, from)
  {
    if Room(files, from) {
      var f: nat :| from <= f < LIMIT && f !in files;
      assert f !in used;
    }
    if Room(used, from) {
      var f: nat :| from <= f < LIMIT && f !in used;
      assert f !in files;
    }
  }

  /** The cached number is right; what is handed out but not yet open lies below it. */
  ghost predicate Caches(used: set<nat>, files: set<nat>, min: nat) {
    IsLeast(used, 0, min) && files <= used && forall f | f in used && f !in files :: f < min
  }

  lemma NextLeast(used: set<nat>, files: set<nat>, fd: nat)
    requires Caches(used, files, fd)
    ensures IsLeast(used + {fd}, 0, FirstGap(files, Next(fd))) <==> Room(used, fd + 1)
    ensures !Room(used, fd + 1) ==> FirstGap(files, Next(fd)) in used + {fd}
  {
    FirstGapIsLeast(files, Next(fd));
    SameRoom(files, used, fd, fd + 1);
    if Room(used, fd + 1) {
      assert IsLeast(files, fd + 1, FirstGap(files, Next(fd)));
    } else if fd + 1 == LIMIT {
      assert fd !in files && Room(files, 0);
    } else {
      assert FirstGap(files, Next(fd)) == 0;
    }
  }

  class FDAllocator {
    var minAvail: nat

    constructor ()
      ensures minAvail == 0
    {
      minAvail := 0;
    }

    method FindAvailable(from: nat, files: Files) returns (current: nat)
      requires from < LIMIT
      ensures current == FirstGap(files.Keys, from)
    {
      current := from;
      while current in files
        invariant current < LIMIT && FirstGap(files.Keys, current) == FirstGap(files.Keys, from)
        decreases LIMIT - current
      {
        if Next(current) == 0 { return 0; }
        current := Next(current);
      }
    }

    /** allocate_fd, for a table in which `used` (the open files and those handed out just before) is taken.
        Above the cached number the search decides; otherwise the cached number is it, and the next one is
        searched for.  Either way the answer is the least unused one exactly when the search found room. */
    method AllocateFd(wanted: nat, files: Files, ghost used: set<nat>) returns (fd: nat)
      requires wanted < LIMIT && minAvail < LIMIT
      modifies this
      ensures minAvail < LIMIT && fd < LIMIT
      ensures wanted <= old(minAvail) ==> fd == old(minAvail) && minAvail == FirstGap(files.Keys, Next(fd))
      ensures wanted <= old(minAvail) && old(Caches(used, files.Keys, minAvail)) ==>
                && IsLeast(used, wanted, fd)
                && (IsLeast(used + {fd}, 0, minAvail) <==> Room(used, fd + 1))
      ensures wanted > old(minAvail) ==> minAvail == old(minAvail) && fd == FirstGap(files.Keys, wanted)
      ensures wanted > old(minAvail) && old(Caches(used, files.Keys, minAvail)) ==>
                && (IsLeast(used, wanted, fd) <==> Room(used, wanted))
                && (Room(used, wanted) ==> IsLeast(used + {fd}, 0, minAvail))
    {
      var from := if wanted < minAvail then minAvail else wanted;
      if from == minAvail {
        fd := minAvail;
        minAvail := FindAvailable(Next(from), files);
        if Caches(used, files.Keys, fd) { NextLeast(used, files.Keys, fd); }
      } else {
        fd := FindAvailable(from, files);
        FirstGapIsLeast(files.Keys, from);
        if Caches(used, files.Keys, minAvail) { SameRoom(files.Keys, used, minAvail, from); }
      }
    }

    method ReleaseFd(fd: nat)
      modifies this
      ensures minAvail == if fd < old(minAvail) then fd else old(minAvail)
    {
      if fd < minAvail { minAvail := fd; }
    }
  }


  lemma SecondIsLeast(used: set<nat>, first: nat, second: nat)
    requires IsLeast(used, 0, first) && IsLeast(used + {first}, 0, second)
    ensures IsLeast(used, first + 1, second)
    ensures Room(used + {first}, second + 1) <==> Room(used, second + 1)
  {
    if Room(used, second + 1) {
      var f: nat :| second + 1 <= f < LIMIT && f !in used;
      assert f !in used + {first};
    }
    if Room(used + {first}, second + 1) {
      var f: nat :| second + 1 <= f < LIMIT && f !in used + {first};
      assert f !in used;
    }
  }

  function Picked(s: seq<nat>): set<nat> { set f | f in s }

  class FileArray {
    var files: Files
    const fdAlloc: FDAllocator

    /** The cached number is the least unused descriptor. */
    ghost predicate Valid()
      reads this, fdAlloc
    {
      IsLeast(files.Keys, 0, fdAlloc.minAvail) && forall f | f in files :: f < LIMIT
    }

    constructor ()
      ensures Valid() && files == map[] && fresh(fdAlloc)
    {
      files := map[];
      fdAlloc := new FDAllocator();
    }

    /** new_cloned: the same descriptors, in a table of its own. */
    constructor Cloned(other: FileArray)
      requires other.Valid()
      ensures Valid() && files == other.files && fresh(fdAlloc)
    {
      files := other.files;
      var alloc := new FDAllocator();
      alloc.minAvail := other.fdAlloc.minAvail;
      fdAlloc := alloc;
    }

    /** do_insert panics on a descriptor in use. */
    method DoInsert(fd: nat, open: OpenFile) returns (ok: bool)
      modifies this`files
      ensures ok <==> fd !in old(files)
      ensures files == if ok then old(files)[fd := open] else old(files)
    {
      ok := fd !in files;
      if ok { files := files[fd := open]; }
    }

    /** open, socket, event_file: the least unused descriptor. */
    method Open(open: OpenFile) returns (r: Outcome<nat>)
      requires Valid()
      modifies this`files, fdAlloc
      ensures r.Ok? && IsLeast(old(files).Keys, 0, r.value) && files == old(files)[r.value := open]
      ensures Valid() <==> Room(old(files).Keys, r.value + 1)
    {
      var fd := fdAlloc.AllocateFd(fdAlloc.minAvail, files, files.Keys);
      var ok := DoInsert(fd, open);
      assert files.Keys == old(files).Keys + {fd};
      return Ok(fd);
    }

    /** dup: the same open file under the least unused descriptor. */
    method Dup(oldFd: nat) returns (r: Outcome<nat>)
      requires Valid()
      modifies this`files, fdAlloc
      ensures r == BadFd <==> oldFd !in old(files)
      ensures r == BadFd ==> files == old(files) && Valid()
      ensures oldFd in old(files) ==>
                && r.Ok? && IsLeast(old(files).Keys, 0, r.value)
                && files == old(files)[r.value := old(files)[oldFd]]
                && (Valid() <==> Room(old(files).Keys, r.value + 1))
    {
      if oldFd !in files { return BadFd; }
      r := Open(files[oldFd]);
    }

    /** fcntl F_DUPFD: the least unused descriptor at or above the argument.  The search must find room
        for that; otherwise it has wrapped to descriptor 0, and inserting there panics if that is in use. */
    method DupFrom(oldFd: nat, arg: nat, cloexec: bool) returns (r: Outcome<nat>)
      requires Valid()
      modifies this`files, fdAlloc
      ensures r == BadFd <==> oldFd !in old(files)
      ensures r == BadFd ==> files == old(files) && Valid()
      ensures oldFd in old(files) && Room(old(files).Keys, arg % LIMIT) ==>
                && r.Ok? && IsLeast(old(files).Keys, arg % LIMIT, r.value)
                && files == old(files)[r.value := OpenFile(cloexec || old(files)[oldFd].cloexec, old(files)[oldFd].file)]
      ensures oldFd in old(files) && arg % LIMIT > old(fdAlloc.minAvail) ==>
                && (Valid() && r.Ok? <==> Room(old(files).Keys, arg % LIMIT))
                && (r == Panic <==> !Room(old(files).Keys, arg % LIMIT) && 0 in old(files))
      ensures oldFd in old(files) && arg % LIMIT <= old(fdAlloc.minAvail) ==>
                (Valid() <==> Room(old(files).Keys, old(fdAlloc.minAvail) + 1))
    {
      if oldFd !in files { return BadFd; }
      var from, open := arg % LIMIT, OpenFile(cloexec || files[oldFd].cloexec, files[oldFd].file);
      var fd := fdAlloc.AllocateFd(from, files, files.Keys);
      FirstGapIsLeast(files.Keys, from);
      var ok := DoInsert(fd, open);
      assert ok ==> files.Keys == old(files).Keys + {fd};
      if !ok { return Panic; }
      return Ok(fd);
    }

    /** dup_to: the wanted descriptor names the file afterwards, whatever it named before, and the
        assertion that a vacant one is what the allocator returns does not fail. */
    method DupTo(oldFd: nat, newFd: nat, cloexec: bool) returns (r: Outcome<Option<OpenFile>>)
      requires Valid() && newFd < LIMIT
      modifies this`files, fdAlloc
      ensures r == BadFd <==> oldFd !in old(files)
      ensures r == BadFd ==> files == old(files) && Valid()
      ensures r != Panic
      ensures oldFd in old(files) ==>
                && r == Ok(if newFd in old(files) then Some(old(files)[newFd]) else None)
                && files == old(files)[newFd := OpenFile(cloexec, old(files)[oldFd].file)]
                && (Valid() <==> newFd != old(fdAlloc.minAvail) || Room(old(files).Keys, newFd + 1))
    {
      if oldFd !in files { return BadFd; }
      var open := OpenFile(cloexec, files[oldFd].file);
      if newFd !in files {
        var fd := fdAlloc.AllocateFd(newFd, files, files.Keys);
        assert Room(old(files).Keys, newFd);
        FirstGapIsLeast(old(files).Keys, newFd);
        assert fd == newFd;
        var ok := DoInsert(newFd, open);
        assert files.Keys == old(files).Keys + {newFd};
        return Ok(None);
      }
      var was := files[newFd];
      files := files[newFd := open];
      assert files.Keys == old(files).Keys;
      return Ok(Some(was));
    }

    /** pipe, socketpair: the two least unused descriptors, taken before either is inserted.  Only when there
        is no second one does inserting it panic. */
    method Pair(left: OpenFile, right: OpenFile) returns (r: Outcome<(nat, nat)>)
      requires Valid()
      modifies this`files, fdAlloc
      ensures r == Panic <==> !Room(old(files).Keys, old(fdAlloc.minAvail) + 1)
      ensures r != BadFd
      ensures r.Ok? ==> IsLeast(old(files).Keys, 0, r.value.0) && IsLeast(old(files).Keys, r.value.0 + 1, r.value.1)
      ensures r.Ok? ==> files == old(files)[r.value.0 := left][r.value.1 := right]
      ensures r.Ok? ==> (Valid() <==> Room(old(files).Keys, r.value.1 + 1))
    {
      ghost var used := files.Keys;
      var first := fdAlloc.AllocateFd(fdAlloc.minAvail, files, used);
      NextLeast(used, used, first);
      var second := fdAlloc.AllocateFd(fdAlloc.minAvail, files, used + {first});
      if Room(used, first + 1) { SecondIsLeast(used, first, second); }
      var ok1 := DoInsert(first, left);
      assert files.Keys == used + {first};
      var ok2 := DoInsert(second, right);
      if !ok2 { return Panic; }
      assert files.Keys == used + {first} + {second};
      return Ok((first, second));
    }

    method Close(fd: nat) returns (r: Outcome<OpenFile>)
      requires Valid()
      modifies this`files, fdAlloc
      ensures Valid()
      ensures r == if fd in old(files) then Ok(old(files)[fd]) else BadFd
      ensures files == old(files) - {fd}
    {
      if fd !in files { return BadFd; }
      var open := files[fd];
      files := files - {fd};
      fdAlloc.ReleaseFd(fd);
      return Ok(open);
    }

    method CloseAll()
      modifies this`files, fdAlloc
      ensures Valid() && files == map[]
    {
      fdAlloc.minAvail := 0;
      files := map[];
    }

    /** close_range and close-on-exec: whichever descriptors are picked are closed and released one by one. */
    method CloseSome(picked: seq<nat>)
      requires Valid()
      modifies this`files, fdAlloc
      ensures Valid() && files == old(files) - Picked(picked)
    {
      for i := 0 to |picked|
        invariant Valid() && files == old(files) - Picked(picked[..i])
      {
        assert Picked(picked[..i + 1]) == Picked(picked[..i]) + {picked[i]};
        if picked[i] in files {
          files := files - {picked[i]};
          fdAlloc.ReleaseFd(picked[i]);
        }
      }
      assert picked[..|picked|] == picked;
    }
  }

  /** The condition matters: with only descriptors 0 and the topmost open, duplicating at or above the topmost
      finds no room and comes back with 0, which is in use. */
  lemma TopmostWraps()
    ensures var used: set<nat> := {0, LIMIT - 1};
            LIMIT == 0x1_0000_0000 && IsLeast(used, 0, 1) && !Room(used, LIMIT - 1) && FirstGap(used, LIMIT - 1) == 0
  {}
}
