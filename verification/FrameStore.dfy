/**
 Physical frames that hold tables, together with the allocator they come from. A frame
 is readable only between its allocation and its release, so a proof about this class
 also rules out use after free and double free.
 */
module FrameStores {
  import opened Paging
  import opened PageTree

  /** A request that ended in `r` was refused once or not at all. */
  function Refusals<T>(r: Result<T>): nat {
    if r.Err? && r.error.NoMemory? then 1 else 0
  }

  class FrameStore {
    /** Which requests the allocator is willing to grant, by their number. */
    const grants: nat -> bool
    var asked: nat
    var mem: FrameMemory
    var free: set<nat>

    ghost predicate Valid()
      reads this
    {
      mem.Keys !! free
    }

    /** The last request was turned down. */
    ghost predicate Refused()
      reads this
    {
      asked > 0 && (free == {} || !grants(asked - 1))
    }

    /** Requests so far and frames left: only a refusal changes the sum. */
    ghost function Requests(): nat
      reads this
    {
      asked + |free|
    }

    constructor (frames: set<nat>, grants: nat -> bool)
      ensures Valid() && mem == map[] && free == frames && this.grants == grants && asked == 0
    {
      this.grants, asked := grants, 0;
      mem := map[];
      free := frames;
    }

    /** `Frame::new`: any allocator; it refuses when it has no frame or does not want to, and
        otherwise hands out some frame it owns, which is then zeroed. */
    method NewFrame(len: nat) returns (r: Result<nat>)
      requires Valid()
      modifies this
      ensures Valid()
      ensures asked == old(asked) + 1 && Requests() == old(Requests()) + Refusals(r)
      ensures r.Ok? <==> old(free) != {} && grants(old(asked))
      ensures r.Err? ==> r.error == NoMemory && mem == old(mem) && free == old(free)
      ensures r.Ok? ==>
                && r.value in old(free)
                && free == old(free) - {r.value}
                && mem == old(mem)[r.value := ZeroFrame(len)]
    {
      asked := asked + 1;
      if free == {} || !grants(asked - 1) {
        return Err(NoMemory);
      }
      var f :| f in free;
      free := free - {f};
      mem := mem[f := ZeroFrame(len)];
      return Ok(f);
    }

    /** `dealloc_frame` */
    method Release(frame: nat)
      requires Valid()
      requires frame in mem
      modifies this`mem, this`free
      ensures Valid()
      ensures mem == old(mem) - {frame} && free == old(free) + {frame}
    {
      mem := mem - {frame};
      free := free + {frame};
    }

    method Write(frame: nat, index: nat, w: Word)
      requires Valid()
      requires frame in mem && index < |mem[frame]|
      modifies this`mem
      ensures Valid()
      ensures mem == old(mem)[frame := PutWord(old(mem)[frame], index, w)]
    {
      mem := mem[frame := PutWord(mem[frame], index, w)];
    }
  }
}
