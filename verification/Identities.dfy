/** Object identities.  The kernel keeps them as text and recognises their shape by prefix; here the
    shapes are constructors and the prefix tests are structural recursion. */
module Identities {
  import opened Words

  /** A call context.  Its printed identity is a digest of exactly these three fields. */
  datatype Context = Context(root: nat, entry: nat, callString: seq<nat>)

  /** Where a call parameter is passed: register:<index> or stack:<offset>:<width>. */
  datatype CallCoordinate = RegisterCoordinate(index: nat) | StackCoordinate(offset: int, width: nat)

  datatype Identity =
    | Plain(name: string)
    | GuestRva(rva: Word)                                      // rva:<rva>
    | Allocation(site: string)                                 // allocation:<site>
    | Frame(context: Context)                                  // captured_stack_frame:<context>
    | Param(context: Context, coordinate: CallCoordinate)      // call_parameter_object:<context>:<coordinate>
    | Aligned(mask: Word, base: Identity, offset: int)         // aligned:<mask>:<base>:<offset>
    | DynRegion(owner: Identity, site: string)                 // dynamic_stack_region:<owner>|<site>

  datatype Option<+T> = None | Some(value: T)

  /** The stack frame an identity lives in, if any. */
  function CapturedStackOwner(id: Identity): (r: Option<Identity>)
    ensures r.Some? ==> r.value.Frame?
  {
    match id
    case Frame(_) => Some(id)
    case Aligned(_, base, _) => CapturedStackOwner(base)
    case DynRegion(owner, _) => CapturedStackOwner(owner)
    case _ => None
  }

  /** The symbolic call parameter an identity is derived from, if any. */
  function CallParameterOwner(id: Identity): (r: Option<Identity>)
    ensures r.Some? ==> r.value.Param?
  {
    match id
    case Param(_, _) => Some(id)
    case Aligned(_, base, _) => CallParameterOwner(base)
    case _ => None
  }

  function TransientOwner(id: Identity): Option<Identity> {
    if CapturedStackOwner(id).Some? then CapturedStackOwner(id) else CallParameterOwner(id)
  }
}
