/** The message encoding of NEURON's ParallelContext bulletin board
    (src/parallel/ocbbs.cpp): how `submit` packs a job (id, style, callee,
    argument-type manifest, arguments), how the worker side decodes it
    (`execute_helper`) and skips its header (`return_args`), and the
    serial paths of `alltoall` and `broadcast`. A message is a sequence of
    typed fields; the bulletin board that ships it is not modelled. */
module OcBbs {
  import opened Common

  /** One packed item: `pkint`, `pkdouble`, `pkstr`, `pkvec`, `pkpickle`. */
  datatype Field = FInt(i: int) | FDouble(x: real) | FStr(s: string) | FVec(v: seq<real>) | FPickle(p: seq<int>)

  /** An argument after the callee: a number, a string, a hoc Vector or a
      Python object (carried as its pickle). */
  datatype Arg = Num(x: real) | Str(s: string) | Vec(v: seq<real>) | PyObj(pickle: seq<int>)

  /** The argument in callee position: a function name, or an object.
      For an object, `pickle` is what the Python pickler returns for it:
      None when Python is absent or the object is a hoc object. */
  datatype First = NameArg(name: string) | ObjArg(template: string, index: int, pickle: Option<seq<int>>)

  /** What a worker runs. */
  datatype Callee = Named(fname: string) | Method(template: string, index: int, fname: string) | Pickled(pickle: seq<int>)
  datatype Job = Statement(stmt: string) | Call(callee: Callee, args: seq<Arg>)

  /** A parsed value and the fields after it. */
  datatype Read<T> = Read(value: T, rest: seq<Field>)

  // ---------------------------------------------------------------------
  // the argument-type manifest
  // ---------------------------------------------------------------------

  /** The manifest digit of an argument. */
  function Kind(a: Arg): (t: int)
    ensures 1 <= t <= 4
  {
    match a
    case Num(_) => 1
    case Str(_) => 2
    case Vec(_) => 3
    case PyObj(_) => 4
  }

  function Kinds(args: seq<Arg>): (ts: seq<int>)
    ensures |ts| == |args| && forall k :: 0 <= k < |ts| ==> ts[k] == Kind(args[k])
  {
    seq(|args|, k requires 0 <= k < |args| => Kind(args[k]))
  }

  function Pow5(n: nat): (p: int)
    ensures p >= 1
  {
    if n == 0 then 1 else 5 * Pow5(n - 1)
  }

  /** The base-5 number whose digits, least significant first, are `ts`. */
  function Encode(ts: seq<int>): int
  {
    if ts == [] then 0 else ts[0] + 5 * Encode(ts[1..])
  }

  /** With digits 1..4 the manifest is positive (when there is an
      argument) and has exactly |ts| digits. */
  lemma {:induction false} EncodeBounds(ts: seq<int>)
    requires forall k :: 0 <= k < |ts| ==> 1 <= ts[k] <= 4
    ensures 0 <= Encode(ts) < Pow5(|ts|)
    ensures ts != [] ==> Encode(ts) > 0
  {
    if ts != [] {
      EncodeBounds(ts[1..]);
    }
  }

  /** At most 13 arguments keep the manifest inside a 32-bit C int. */
  lemma EncodeFitsInt(ts: seq<int>)
    requires |ts| <= 13 && forall k :: 0 <= k < |ts| ==> 1 <= ts[k] <= 4
    ensures 0 <= Encode(ts) < 0x8000_0000
  {
    EncodeBounds(ts);
    Pow5Mono(|ts|, 13);
    assert Pow5(13) == 1220703125;
  }

  lemma {:induction false} Pow5Mono(a: nat, b: nat)
    requires a <= b
    ensures Pow5(a) <= Pow5(b)
    decreases b - a
  {
    if a < b {
      Pow5Mono(a, b - 1);
    }
  }

  /** Appending a digit adds it at the next power of five. */
  lemma {:induction false} EncodeSnoc(ts: seq<int>, t: int)
    ensures Encode(ts + [t]) == Encode(ts) + t * Pow5(|ts|)
  {
    if ts == [] {
      assert [t][1..] == [];
    } else {
      assert (ts + [t])[1..] == ts[1..] + [t];
      EncodeSnoc(ts[1..], t);
      var p := Pow5(|ts| - 1);
      assert 5 * (t * p) == t * (5 * p);
    }
  }

  /** The `argtypes += t*ii; ii *= 5` loop of `submit_help`. */
  method ArgTypes(args: seq<Arg>) returns (argtypes: int)
    ensures argtypes == Encode(Kinds(args))
  {
    ghost var ts := Kinds(args);
    argtypes := 0;
    var ii := 1;
    var i := 0;
    while i < |args|
      invariant 0 <= i <= |args| && ii == Pow5(i)
      invariant argtypes == Encode(ts[..i])
    {
      var t := Kind(args[i]);
      EncodeSnoc(ts[..i], t);
      assert ts[..i + 1] == ts[..i] + [t];
      argtypes := argtypes + t * ii;
      ii := ii * 5;
      i := i + 1;
    }
    assert ts[..i] == ts;
  }

  /** C's `%` and `/` on int: truncation toward zero. */
  function CRem(a: int, b: int): (r: int)
    requires b > 0
    ensures a >= 0 ==> 0 <= r < b
    ensures a < 0 ==> -b < r <= 0
  {
    if a >= 0 then a % b else -((-a) % b)
  }

  function CQuot(a: int, b: int): (q: int)
    requires b > 0
    ensures a == q * b + CRem(a, b)
  {
    if a >= 0 then a / b else -((-a) / b)
  }

  function Abs(a: int): nat
  {
    if a < 0 then -a else a
  }

  /** The digits that `for (j = argtypes; (i = j%5) != 0; j /= 5)` visits. */
  function Digits(j: int): seq<int>
    decreases Abs(j)
  {
    var d := CRem(j, 5);
    if d == 0 then [] else [d] + Digits(CQuot(j, 5))
  }

  /** That loop, as `execute_helper` runs it; `narg` counts the digits. */
  method DecodeArgTypes(argtypes: int) returns (types: seq<int>, narg: int)
    ensures types == Digits(argtypes) && narg == |types|
  {
    types := [];
    narg := 0;
    var j := argtypes;
    var i := CRem(j, 5);
    while i != 0
      invariant i == CRem(j, 5)
      invariant types + Digits(j) == Digits(argtypes) && narg == |types|
      decreases Abs(j)
    {
      narg := narg + 1;
      assert Digits(j) == [i] + Digits(CQuot(j, 5));
      types := types + [i];
      j := CQuot(j, 5);
      i := CRem(j, 5);
    }
  }

  /** The decoder gives back exactly the encoded digits when each is 1..4. */
  lemma {:induction false} DigitsEncode(ts: seq<int>)
    requires forall k :: 0 <= k < |ts| ==> 1 <= ts[k] <= 4
    ensures Digits(Encode(ts)) == ts
  {
    if ts != [] {
      EncodeBounds(ts[1..]);
      var e := Encode(ts[1..]);
      assert Encode(ts) == ts[0] + 5 * e;
      assert CRem(ts[0] + 5 * e, 5) == ts[0];
      assert CQuot(ts[0] + 5 * e, 5) == e;
      DigitsEncode(ts[1..]);
    }
  }

  // ---------------------------------------------------------------------
  // packing and unpacking
  // ---------------------------------------------------------------------

  /** What `pack_help` packs for one argument: a Vector is its size then
      its elements. */
  function PackArg(a: Arg): seq<Field>
  {
    match a
    case Num(x) => [FDouble(x)]
    case Str(s) => [FStr(s)]
    case Vec(v) => [FInt(|v|), FVec(v)]
    case PyObj(p) => [FPickle(p)]
  }

  function PackArgs(args: seq<Arg>): seq<Field>
  {
    if args == [] then [] else PackArg(args[0]) + PackArgs(args[1..])
  }

  lemma {:induction false} PackArgsSnoc(args: seq<Arg>, a: Arg)
    ensures PackArgs(args + [a]) == PackArgs(args) + PackArg(a)
  {
    if args == [] {
      assert args + [a] == [a];
      assert [a][1..] == [];
    } else {
      assert (args + [a])[1..] == args[1..] + [a];
      PackArgsSnoc(args[1..], a);
    }
  }

  function UpkInt(m: seq<Field>): Result<Read<int>>
  {
    if |m| > 0 && m[0].FInt? then Ok(Read(m[0].i, m[1..])) else Err("expected an int")
  }

  function UpkDouble(m: seq<Field>): Result<Read<real>>
  {
    if |m| > 0 && m[0].FDouble? then Ok(Read(m[0].x, m[1..])) else Err("expected a double")
  }

  function UpkStr(m: seq<Field>): Result<Read<string>>
  {
    if |m| > 0 && m[0].FStr? then Ok(Read(m[0].s, m[1..])) else Err("expected a string")
  }

  /** `upkvec(n, ...)`: n doubles. */
  function UpkVec(n: int, m: seq<Field>): Result<Read<seq<real>>>
  {
    if |m| > 0 && m[0].FVec? && |m[0].v| == n then Ok(Read(m[0].v, m[1..])) else Err("expected a vector")
  }

  function UpkPickle(m: seq<Field>): Result<Read<seq<int>>>
  {
    if |m| > 0 && m[0].FPickle? then Ok(Read(m[0].p, m[1..])) else Err("expected a pickle")
  }

  /** One argument of manifest digit `t`, as `execute_helper` unpacks it:
      any digit other than 1, 2 or 3 is read as a pickled Python object. */
  function UpkArg(t: int, m: seq<Field>): Result<Read<Arg>>
  {
    if t == 1 then
      match UpkDouble(m)
      case Err(e) => Err(e)
      case Ok(r) => Ok(Read(Num(r.value), r.rest))
    else if t == 2 then
      match UpkStr(m)
      case Err(e) => Err(e)
      case Ok(r) => Ok(Read(Str(r.value), r.rest))
    else if t == 3 then
      match UpkInt(m)
      case Err(e) => Err(e)
      case Ok(r) =>
        match UpkVec(r.value, r.rest)
        case Err(e) => Err(e)
        case Ok(r2) => Ok(Read(Vec(r2.value), r2.rest))
    else
      match UpkPickle(m)
      case Err(e) => Err(e)
      case Ok(r) => Ok(Read(PyObj(r.value), r.rest))
  }

  function UpkArgs(types: seq<int>, m: seq<Field>): Result<Read<seq<Arg>>>
    decreases |types|
  {
    if types == [] then Ok(Read([], m))
    else
      match UpkArg(types[0], m)
      case Err(e) => Err(e)
      case Ok(r) =>
        match UpkArgs(types[1..], r.rest)
        case Err(e) => Err(e)
        case Ok(r2) => Ok(Read([r.value] + r2.value, r2.rest))
  }

  /** One argument reads back by its own digit. */
  lemma ArgRoundTrip(a: Arg, tail: seq<Field>)
    ensures UpkArg(Kind(a), PackArg(a) + tail) == Ok(Read(a, tail))
  {
    match a
    case Num(x) =>
      assert (PackArg(a) + tail)[1..] == tail;
    case Str(s) =>
      assert (PackArg(a) + tail)[1..] == tail;
    case Vec(v) =>
      var m := PackArg(a) + tail;
      assert m[1..] == [FVec(v)] + tail;
      assert m[1..][1..] == tail;
    case PyObj(p) =>
      assert (PackArg(a) + tail)[1..] == tail;
  }

  /** Unpacking by the manifest gives back the packed arguments and leaves
      what follows them. */
  lemma {:induction false} ArgsRoundTrip(args: seq<Arg>, tail: seq<Field>)
    ensures UpkArgs(Kinds(args), PackArgs(args) + tail) == Ok(Read(args, tail))
  {
    if args != [] {
      var a := args[0];
      var more := PackArgs(args[1..]) + tail;
      assert Kinds(args)[1..] == Kinds(args[1..]);
      assert PackArgs(args) + tail == PackArg(a) + more;
      ArgRoundTrip(a, more);
      ArgsRoundTrip(args[1..], tail);
      var ts := Kinds(args);
      assert ts[0] == Kind(a);
      assert UpkArg(ts[0], PackArg(a) + more) == Ok(Read(a, more));
      assert UpkArgs(ts[1..], more) == Ok(Read(args[1..], tail));
      assert [a] + args[1..] == args;
    } else {
      assert Kinds(args) == [];
      assert PackArgs(args) + tail == tail;
    }
  }

  // ---------------------------------------------------------------------
  // submit and its readers
  // ---------------------------------------------------------------------

  /** An object in callee position without a pickle is followed by its
      method name, as a string. */
  predicate NameMissing(first: First, rest: seq<Arg>)
  {
    first.ObjArg? && first.pickle.None? && |rest| >= 1 && !rest[0].Str?
  }

  /** The style-3 job without arguments, as `submit_help` packs it:
      style and pickle only. */
  function NoArgPickleAsWritten(p: seq<int>): seq<Field>
  {
    [FInt(3), FPickle(p)]
  }

  /** The same job with an empty manifest, which every reader of style 3
      expects. */
  function NoArgPickle(p: seq<int>): seq<Field>
  {
    [FInt(3), FPickle(p), FInt(0)]
  }

  /** The style and callee fields of a job with arguments. */
  function CallHeader(first: First, rest: seq<Arg>): seq<Field>
    requires |rest| >= 1 && !NameMissing(first, rest)
  {
    match first
    case NameArg(f) => [FInt(1), FStr(f)]
    case ObjArg(t, idx, pk) =>
      if pk.Some? then [FInt(3), FPickle(pk.value)]
      else [FInt(2), FStr(t), FInt(idx), FStr(rest[0].s)]
  }

  /** The arguments a job is called with: all but the method name of an
      object without a pickle. */
  function CallArgs(first: First, rest: seq<Arg>): seq<Arg>
    requires |rest| >= 1
  {
    if first.ObjArg? && first.pickle.None? then rest[1..] else rest
  }

  /** A job without arguments: a statement, or a pickled callable. */
  function NoArgBody(first: First): seq<Field>
  {
    match first
    case NameArg(s) => [FInt(0), FStr(s)]
    case ObjArg(_, _, pk) => if pk.Some? then NoArgPickle(pk.value) else []
  }

  /** What `submit_help` packs after the id. */
  function SubmitBody(first: First, rest: seq<Arg>): seq<Field>
    requires !NameMissing(first, rest)
  {
    if |rest| >= 1 then
      var args := CallArgs(first, rest);
      CallHeader(first, rest) + [FInt(Encode(Kinds(args)))] + PackArgs(args)
    else NoArgBody(first)
  }

  /** A submission that packs a job: the method name of an object is a
      string, and an object without a pickle does not come alone. */
  predicate Packs(first: First, rest: seq<Arg>)
  {
    !NameMissing(first, rest) && !(first.ObjArg? && first.pickle.None? && |rest| == 0)
  }

  /** What a job with arguments calls. */
  function CalleeOf(first: First, rest: seq<Arg>): Callee
    requires |rest| >= 1 && !NameMissing(first, rest)
  {
    match first
    case NameArg(f) => Named(f)
    case ObjArg(t, idx, pk) => if pk.Some? then Pickled(pk.value) else Method(t, idx, rest[0].s)
  }

  /** The job a submission asks for. */
  function Intended(first: First, rest: seq<Arg>): Job
    requires Packs(first, rest)
  {
    if |rest| >= 1 then Call(CalleeOf(first, rest), CallArgs(first, rest))
    else
      match first
      case NameArg(s) => Statement(s)
      case ObjArg(_, _, pk) => Call(Pickled(pk.value), [])
  }

  /** The callee header of a non-statement style. */
  function UpkCallee(style: int, m: seq<Field>): Result<Read<Callee>>
  {
    if style == 2 then
      match UpkStr(m)
      case Err(e) => Err(e)
      case Ok(r) =>
        match UpkInt(r.rest)
        case Err(e) => Err(e)
        case Ok(r2) =>
          match UpkStr(r2.rest)
          case Err(e) => Err(e)
          case Ok(r3) => Ok(Read(Method(r.value, r2.value, r3.value), r3.rest))
    else if style == 3 then
      match UpkPickle(m)
      case Err(e) => Err(e)
      case Ok(r) => Ok(Read(Pickled(r.value), r.rest))
    else
      match UpkStr(m)
      case Err(e) => Err(e)
      case Ok(r) => Ok(Read(Named(r.value), r.rest))
  }

  /** What `execute_helper` reads from a job message after its id. */
  function ExecuteHelper(body: seq<Field>): Result<Job>
  {
    match UpkInt(body)
    case Err(e) => Err(e)
    case Ok(r) =>
      if r.value == 0 then
        match UpkStr(r.rest)
        case Err(e) => Err(e)
        case Ok(r2) => Ok(Statement(r2.value))
      else
        match UpkCallee(r.value, r.rest)
        case Err(e) => Err(e)
        case Ok(r2) =>
          match UpkInt(r2.rest)
          case Err(e) => Err(e)
          case Ok(r3) =>
            match UpkArgs(Digits(r3.value), r3.rest)
            case Err(e) => Err(e)
            case Ok(r4) => Ok(Call(r2.value, r4.value))
  }

  /** The callee fields read back as the callee, in every style. */
  lemma CalleeRoundTrip(first: First, rest: seq<Arg>, tail: seq<Field>)
    requires |rest| >= 1 && !NameMissing(first, rest)
    ensures |CallHeader(first, rest)| >= 1 && CallHeader(first, rest)[0].FInt?
    ensures CallHeader(first, rest)[0].i != 0
    ensures UpkCallee(CallHeader(first, rest)[0].i, CallHeader(first, rest)[1..] + tail) == Ok(Read(CalleeOf(first, rest), tail))
  {
    var h := CallHeader(first, rest);
    match first
    case NameArg(f) =>
      assert (h[1..] + tail)[1..] == tail;
    case ObjArg(t, idx, pk) =>
      if pk.Some? {
        assert (h[1..] + tail)[1..] == tail;
      } else {
        var m := h[1..] + tail;
        assert m[1..] == [FInt(idx), FStr(rest[0].s)] + tail;
        assert m[1..][1..] == [FStr(rest[0].s)] + tail;
        assert m[1..][1..][1..] == tail;
      }
  }

  /** `execute_helper` on a call: the style, the callee, the manifest, the
      arguments. */
  lemma ExecuteCall(style: int, m: seq<Field>, e: int, p: seq<Field>, callee: Callee, args: seq<Arg>)
    requires style != 0
    requires UpkCallee(style, m) == Ok(Read(callee, [FInt(e)] + p))
    requires UpkArgs(Digits(e), p) == Ok(Read(args, []))
    ensures ExecuteHelper([FInt(style)] + m) == Ok(Call(callee, args))
  {
    assert ([FInt(style)] + m)[1..] == m;
    assert ([FInt(e)] + p)[1..] == p;
  }

  /** The manifest and the arguments after it read back as the arguments. */
  lemma ManifestRoundTrip(args: seq<Arg>)
    ensures UpkArgs(Digits(Encode(Kinds(args))), PackArgs(args)) == Ok(Read(args, []))
  {
    DigitsEncode(Kinds(args));
    ArgsRoundTrip(args, []);
    assert PackArgs(args) + [] == PackArgs(args);
  }

  /** The body of a job with arguments: the style, the rest of the callee,
      the manifest, the arguments. */
  lemma CallBodySplit(first: First, rest: seq<Arg>)
    requires |rest| >= 1 && !NameMissing(first, rest)
    ensures |CallHeader(first, rest)| >= 1
    ensures SubmitBody(first, rest) ==
              [CallHeader(first, rest)[0]] + (CallHeader(first, rest)[1..] +
                ([FInt(Encode(Kinds(CallArgs(first, rest))))] + PackArgs(CallArgs(first, rest))))
  {
    var h := CallHeader(first, rest);
    var args := CallArgs(first, rest);
    var t := [FInt(Encode(Kinds(args)))];
    var p := PackArgs(args);
    assert SubmitBody(first, rest) == h + t + p;
    assert h + t + p == [h[0]] + (h[1..] + (t + p)) by {
      assert h == [h[0]] + h[1..];
    }
  }

  /** A job with arguments reads back as its callee and arguments. */
  lemma CallRoundTrip(first: First, rest: seq<Arg>)
    requires |rest| >= 1 && !NameMissing(first, rest)
    ensures ExecuteHelper(SubmitBody(first, rest)) == Ok(Call(CalleeOf(first, rest), CallArgs(first, rest)))
  {
    var args := CallArgs(first, rest);
    var e := Encode(Kinds(args));
    var h := CallHeader(first, rest);
    var tail := [FInt(e)] + PackArgs(args);
    CalleeRoundTrip(first, rest, tail);
    CallBodySplit(first, rest);
    ManifestRoundTrip(args);
    ExecuteCall(h[0].i, h[1..] + tail, e, PackArgs(args), CalleeOf(first, rest), args);
  }

  /** Every submission that packs a job is read back as the job it asks
      for. */
  lemma SubmitRoundTrip(first: First, rest: seq<Arg>)
    requires Packs(first, rest)
    ensures ExecuteHelper(SubmitBody(first, rest)) == Ok(Intended(first, rest))
  {
    if |rest| >= 1 {
      CallRoundTrip(first, rest);
    } else if first.NameArg? {
      assert SubmitBody(first, rest)[1..] == [FStr(first.name)];
    } else {
      NoArgPickleReadable(0, first.pickle.value);
    }
  }

  /** An object alone, without Python, packs nothing after the id, and
      the worker has no job to read. */
  lemma EmptySubmissionUnreadable(t: string, idx: int)
    ensures SubmitBody(ObjArg(t, idx, None), []) == []
    ensures ExecuteHelper([]).Err?
  {
  }

  /** `BBSImpl::return_args`: consumes the id and the header of the job's
      style, leaving the argument fields. A style it does not know
      consumes nothing past the style. */
  function ReturnArgs(msg: seq<Field>): Result<seq<Field>>
  {
    match UpkInt(msg)
    case Err(e) => Err(e)
    case Ok(r0) =>
      match UpkInt(r0.rest)
      case Err(e) => Err(e)
      case Ok(r) =>
        var style := r.value;
        if style == 0 then
          match UpkStr(r.rest)
          case Err(e) => Err(e)
          case Ok(r2) => Ok(r2.rest)
        else if style == 1 || style == 2 then
          var m :=
            if style == 2 then
              match UpkStr(r.rest)
              case Err(e) => Err(e)
              case Ok(r2) =>
                match UpkInt(r2.rest)
                case Err(e) => Err(e)
                case Ok(r3) => Ok(r3.rest)
            else Ok(r.rest);
          match m
          case Err(e) => Err(e)
          case Ok(m1) =>
            match UpkStr(m1)
            case Err(e) => Err(e)
            case Ok(r4) =>
              match UpkInt(r4.rest)
              case Err(e) => Err(e)
              case Ok(r5) => Ok(r5.rest)
        else if style == 3 then
          match UpkPickle(r.rest)
          case Err(e) => Err(e)
          case Ok(r2) =>
            match UpkInt(r2.rest)
            case Err(e) => Err(e)
            case Ok(r3) => Ok(r3.rest)
        else Ok(r.rest)
  }

  /** `return_args` on a job with arguments stops at the manifest. */
  lemma ReturnArgsCall(id: int, first: First, rest: seq<Arg>, e: int, p: seq<Field>)
    requires |rest| >= 1 && !NameMissing(first, rest)
    ensures ReturnArgs([FInt(id)] + CallHeader(first, rest) + [FInt(e)] + p) == Ok(p)
  {
    var m := [FInt(id)] + CallHeader(first, rest) + [FInt(e)] + p;
    match first
    case NameArg(f) =>
      assert m[1..][1..][1..][1..] == p;
    case ObjArg(t, idx, pk) =>
      if pk.Some? {
        assert m[1..][1..][1..][1..] == p;
      } else {
        assert m[1..][1..][1..][1..][1..][1..] == p;
      }
  }

  /** `return_args` leaves exactly the packed arguments of the job (none for
      a statement). */
  lemma ReturnArgsLeavesArgs(id: int, first: First, rest: seq<Arg>)
    requires Packs(first, rest)
    ensures Intended(first, rest).Call? ==>
              ReturnArgs([FInt(id)] + SubmitBody(first, rest)) == Ok(PackArgs(Intended(first, rest).args))
    ensures Intended(first, rest).Statement? ==> ReturnArgs([FInt(id)] + SubmitBody(first, rest)) == Ok([])
  {
    if |rest| >= 1 {
      ReturnArgsOfCall(id, first, rest);
    } else if first.NameArg? {
      ReturnArgsOfStatement(id, first.name);
    } else {
      NoArgPickleReadable(id, first.pickle.value);
    }
  }

  /** `return_args` on a job with arguments leaves the packed arguments. */
  lemma ReturnArgsOfCall(id: int, first: First, rest: seq<Arg>)
    requires |rest| >= 1 && !NameMissing(first, rest)
    ensures ReturnArgs([FInt(id)] + SubmitBody(first, rest)) == Ok(PackArgs(CallArgs(first, rest)))
  {
    var args := CallArgs(first, rest);
    var e := Encode(Kinds(args));
    var h, p := CallHeader(first, rest), PackArgs(args);
    ReturnArgsCall(id, first, rest, e, p);
    assert SubmitBody(first, rest) == h + [FInt(e)] + p;
    assert [FInt(id)] + (h + [FInt(e)] + p) == [FInt(id)] + h + [FInt(e)] + p;
  }

  /** `return_args` on a statement leaves nothing. */
  lemma ReturnArgsOfStatement(id: int, stmt: string)
    ensures ReturnArgs([FInt(id)] + NoArgBody(NameArg(stmt))) == Ok([])
  {
    var m := [FInt(id)] + NoArgBody(NameArg(stmt));
    assert m[1..][1..][1..] == [];
  }

  /** As written, the style-3 job without arguments cannot be read: both
      readers look for a manifest that was never packed. */
  lemma NoArgPickleAsWrittenUnreadable(id: int, p: seq<int>)
    ensures ExecuteHelper(NoArgPickleAsWritten(p)).Err?
    ensures ReturnArgs([FInt(id)] + NoArgPickleAsWritten(p)).Err?
  {
    assert ([FInt(id)] + NoArgPickleAsWritten(p))[1..] == NoArgPickleAsWritten(p);
  }

  /** With the empty manifest the same job reads back as a call with no
      arguments, and `return_args` leaves nothing. */
  lemma NoArgPickleReadable(id: int, p: seq<int>)
    ensures ExecuteHelper(NoArgPickle(p)) == Ok(Call(Pickled(p), []))
    ensures ReturnArgs([FInt(id)] + NoArgPickle(p)) == Ok([])
  {
    assert ([FInt(id)] + NoArgPickle(p))[1..] == NoArgPickle(p);
  }

  /** The buffer after the callee, the manifest and the arguments holds
      the submission body. */
  lemma CallBody(first: First, rest: seq<Arg>, start: seq<Field>, head: seq<Field>, buf: seq<Field>)
    requires |rest| >= 1 && !NameMissing(first, rest)
    requires head == start + CallHeader(first, rest)
    requires buf == head + [FInt(Encode(Kinds(CallArgs(first, rest))))] + PackArgs(CallArgs(first, rest))
    ensures buf == start + SubmitBody(first, rest)
  {
  }

  /** The `OcBBS` object's packing state: `next_local_`, the send buffer
      and the file-scope `posting_` flag. */
  class ParallelContext {
    var nextLocal: int
    var sendbuf: seq<Field>
    var posting: bool

    /** Local ids only go down from 0. */
    ghost predicate Valid()
      reads this
    {
      nextLocal <= 0
    }

    constructor ()
      ensures Valid() && nextLocal == 0 && sendbuf == [] && !posting
    {
      nextLocal := 0;
      sendbuf := [];
      posting := false;
    }

    /** `pack_help`: starts a message unless one is being posted, then
        packs each argument. */
    method PackHelp(args: seq<Arg>)
      modifies this
      ensures posting && nextLocal == old(nextLocal)
      ensures sendbuf == (if old(posting) then old(sendbuf) else []) + PackArgs(args)
    {
      if !posting {
        sendbuf := [];
        posting := true;
      }
      ghost var base := sendbuf;
      var i := 0;
      while i < |args|
        invariant 0 <= i <= |args| && posting && nextLocal == old(nextLocal)
        invariant sendbuf == base + PackArgs(args[..i])
      {
        var a := args[i];
        PackOne(a);
        PackArgsSnoc(args[..i], a);
        assert args[..i + 1] == args[..i] + [a];
        i := i + 1;
      }
      assert args[..i] == args;
    }

    /** One pass of the `pack_help` loop: the argument packed as its type
        says. */
    method PackOne(a: Arg)
      modifies this
      ensures sendbuf == old(sendbuf) + PackArg(a)
      ensures nextLocal == old(nextLocal) && posting == old(posting)
    {
      match a {
        case Num(x) => sendbuf := sendbuf + [FDouble(x)];
        case Str(s) => sendbuf := sendbuf + [FStr(s)];
        case Vec(v) => sendbuf := sendbuf + [FInt(|v|)]; sendbuf := sendbuf + [FVec(v)];
        case PyObj(p) => sendbuf := sendbuf + [FPickle(p)];
      }
    }

    /** The no-argument Python job as `submit_help` packs it. */
    method PackNoArgPickleAsWritten(p: seq<int>)
      modifies this
      ensures sendbuf == old(sendbuf) + NoArgPickleAsWritten(p)
      ensures nextLocal == old(nextLocal) && posting == old(posting)
    {
      sendbuf := sendbuf + [FInt(3)];
      sendbuf := sendbuf + [FPickle(p)];
    }

    /** The same job with its empty manifest. */
    method PackNoArgPickle(p: seq<int>)
      modifies this
      ensures sendbuf == old(sendbuf) + NoArgPickle(p)
      ensures nextLocal == old(nextLocal) && posting == old(posting)
    {
      sendbuf := sendbuf + [FInt(3)];
      sendbuf := sendbuf + [FPickle(p)];
      sendbuf := sendbuf + [FInt(0)];
    }

    /** The callee part of a job with arguments: the style, then the
        function name, the pickle, or the object's template, index and
        method name; false when that method name is not a string. */
    method PackCallee(first: First, rest: seq<Arg>) returns (ok: bool)
      requires |rest| >= 1
      modifies this
      ensures ok <==> !NameMissing(first, rest)
      ensures ok ==> sendbuf == old(sendbuf) + CallHeader(first, rest)
      ensures nextLocal == old(nextLocal) && posting == old(posting)
    {
      ok := true;
      match first {
        case NameArg(f) =>
          sendbuf := sendbuf + [FInt(1)];
          sendbuf := sendbuf + [FStr(f)];
        case ObjArg(t, idx, pk) =>
          if pk.Some? {
            sendbuf := sendbuf + [FInt(3)];
            sendbuf := sendbuf + [FPickle(pk.value)];
          } else {
            sendbuf := sendbuf + [FInt(2)];
            sendbuf := sendbuf + [FStr(t)];
            sendbuf := sendbuf + [FInt(idx)];
            if !rest[0].Str? {
              return false;
            }
            sendbuf := sendbuf + [FStr(rest[0].s)];
          }
      }
    }

    /** A job without arguments: a statement, or a pickled callable; an
        object without a pickle packs nothing. */
    method PackNoArg(first: First)
      modifies this
      ensures sendbuf == old(sendbuf) + NoArgBody(first)
      ensures nextLocal == old(nextLocal) && posting == old(posting)
    {
      match first {
        case NameArg(s) =>
          sendbuf := sendbuf + [FInt(0)];
          sendbuf := sendbuf + [FStr(s)];
        case ObjArg(_, _, pk) =>
          if pk.Some? {
            PackNoArgPickle(pk.value);
          }
      }
    }

    /** A job with arguments: callee, manifest, arguments. */
    method PackCall(first: First, rest: seq<Arg>) returns (ok: bool)
      requires posting && |rest| >= 1
      modifies this
      ensures ok <==> !NameMissing(first, rest)
      ensures ok ==> sendbuf == old(sendbuf) + SubmitBody(first, rest)
      ensures nextLocal == old(nextLocal) && posting
    {
      ok := PackCallee(first, rest);
      if !ok {
        return;
      }
      ghost var head := sendbuf;
      var args := CallArgs(first, rest);
      var argtypes := ArgTypes(args);
      sendbuf := sendbuf + [FInt(argtypes)];
      PackHelp(args);
      CallBody(first, rest, old(sendbuf), head, sendbuf);
    }

    /** Everything `submit_help` packs after the id, while posting. */
    method PackBody(first: First, rest: seq<Arg>) returns (ok: bool)
      requires posting
      modifies this
      ensures ok <==> !NameMissing(first, rest)
      ensures ok ==> sendbuf == old(sendbuf) + SubmitBody(first, rest)
      ensures nextLocal == old(nextLocal) && posting
    {
      if |rest| >= 1 {
        ok := PackCall(first, rest);
      } else {
        ok := true;
        PackNoArg(first);
      }
    }

    /** `submit_help`: an explicit id must lie in [0, 1e7] and is
        truncated; otherwise the id is the next, ever smaller, negative
        local id. The message is the id followed by `SubmitBody`. The
        errors abort the submission. */
    method SubmitHelp(explicitId: Option<real>, first: First, rest: seq<Arg>) returns (r: Result<int>)
      requires Valid()
      modifies this
      ensures Valid()
      ensures r.Err? <==> (explicitId.Some? && !(0.0 <= explicitId.value <= 10000000.0)) || NameMissing(first, rest)
      ensures explicitId.None? ==> nextLocal == old(nextLocal) - 1
      ensures explicitId.Some? ==> nextLocal == old(nextLocal)
      ensures r.Ok? ==> !posting && sendbuf == [FInt(r.value)] + SubmitBody(first, rest)
      ensures r.Ok? && explicitId.Some? ==> r.value == Trunc(explicitId.value) && 0 <= r.value <= 10000000
      ensures r.Ok? && explicitId.None? ==> r.value == nextLocal < 0
    {
      posting := true;
      sendbuf := [];
      r := NextId(explicitId);
      if r.Err? {
        return;
      }
      var id := r.value;
      assert sendbuf == [];
      sendbuf := sendbuf + [FInt(id)];
      assert sendbuf == [FInt(id)];
      var ok := PackBody(first, rest);
      if !ok {
        return Err("not a string");
      }
      assert sendbuf == [FInt(id)] + SubmitBody(first, rest);
      posting := false;
    }

    /** The id of a submission: an explicit one in range, truncated, or the
        next local id. */
    method NextId(explicitId: Option<real>) returns (r: Result<int>)
      requires Valid()
      modifies `nextLocal
      ensures Valid()
      ensures r.Err? <==> explicitId.Some? && !(0.0 <= explicitId.value <= 10000000.0)
      ensures explicitId.None? ==> nextLocal == old(nextLocal) - 1 && r == Ok(nextLocal) && nextLocal < 0
      ensures explicitId.Some? ==> nextLocal == old(nextLocal)
      ensures r.Ok? && explicitId.Some? ==> r.value == Trunc(explicitId.value) && 0 <= r.value <= 10000000
    {
      if explicitId.Some? {
        var x := explicitId.value;
        if x < 0.0 || x > 10000000.0 {
          return Err("arg out of range");
        }
        TruncInRange(x);
        r := Ok(Trunc(x));
      } else {
        nextLocal := nextLocal - 1;
        r := Ok(nextLocal);
      }
    }
  }

  /** An explicit id in [0, 10^7] truncates into the same range. */
  lemma TruncInRange(x: real)
    requires 0.0 <= x <= 10000000.0
    ensures 0 <= Trunc(x) <= 10000000
  {
  }

  /** Two submissions without explicit ids get different, negative ids. */
  method TwoSubmissions(first: First, rest: seq<Arg>) returns (a: int, b: int)
    requires !NameMissing(first, rest)
    ensures a < 0 && b < 0 && a != b
  {
    var pc := new ParallelContext();
    var r1 := pc.SubmitHelp(None, first, rest);
    var r2 := pc.SubmitHelp(None, first, rest);
    a, b := r1.value, r2.value;
  }

  // ---------------------------------------------------------------------
  // alltoall and broadcast without MPI
  // ---------------------------------------------------------------------

  /** The per-host counts as `int(x[i])` reads them. */
  function Counts(cnts: seq<real>): (c: seq<int>)
    ensures |c| == |cnts| && forall k :: 0 <= k < |c| ==> c[k] == Trunc(cnts[k])
  {
    seq(|cnts|, k requires 0 <= k < |cnts| => Trunc(cnts[k]))
  }

  /** The `scnt`/`sdispl` loop of `alltoall`: sdispl is the running sum of
      the counts, one entry longer. */
  method SendDispl(cnts: seq<real>) returns (scnt: array<int>, sdispl: array<int>)
    ensures fresh(scnt) && fresh(sdispl)
    ensures scnt[..] == Counts(cnts) && sdispl.Length == |cnts| + 1
    ensures forall k :: 0 <= k <= |cnts| ==> sdispl[k] == Sum(scnt[..], 0, k)
  {
    var np := |cnts|;
    ghost var c := Counts(cnts);
    scnt := new int[np];
    sdispl := new int[np + 1];
    sdispl[0] := 0;
    var i := 0;
    while i < np
      invariant 0 <= i <= np
      invariant scnt[..i] == c[..i]
      invariant forall k :: 0 <= k <= i ==> sdispl[k] == Sum(c, 0, k)
    {
      var t := Trunc(cnts[i]);
      scnt[i] := t;
      assert scnt[..i + 1] == c[..i + 1] by {
        assert scnt[..i + 1] == scnt[..i] + [t];
        assert c[..i + 1] == c[..i] + [c[i]];
      }
      sdispl[i + 1] := sdispl[i] + t;
      i := i + 1;
    }
    assert scnt[..] == scnt[..np];
    assert c == c[..np];
  }

  /** `alltoall` in one process: the counts vector must have one entry per
      host and the counts must add up to the source length; then the
      destination is a copy of the source. */
  method Alltoall(src: seq<real>, cnts: seq<real>, np: int) returns (r: Result<seq<real>>)
    ensures r.Err? <==> |cnts| != np || |src| != Sum(Counts(cnts), 0, |cnts|)
    ensures r.Ok? ==> r.value == src
  {
    if |cnts| != np {
      return Err("size of source counts vector is not nhost");
    }
    var scnt, sdispl := SendDispl(cnts);
    if |src| != sdispl[np] {
      return Err("sum of source counts is not the size of the src vector");
    }
    var dest := new real[|src|];
    var i := 0;
    while i < |src|
      invariant 0 <= i <= |src|
      invariant forall k :: 0 <= k < i ==> dest[k] == src[k]
    {
      dest[i] := src[i];
      i := i + 1;
    }
    r := Ok(dest[..]);
  }

  /** With non-negative counts the blocks of the source laid out by
      `sdispl` follow one another and end at the source length. */
  lemma SendBlocksInside(cnts: seq<real>, i: int)
    requires 0 <= i < |cnts| && forall k :: 0 <= k < |cnts| ==> cnts[k] >= 0.0
    ensures 0 <= Sum(Counts(cnts), 0, i)
    ensures Sum(Counts(cnts), 0, i) + Trunc(cnts[i]) == Sum(Counts(cnts), 0, i + 1) <= Sum(Counts(cnts), 0, |cnts|)
  {
    SumBounds(Counts(cnts), 0, i);
    SumMonotone(Counts(cnts), 0, i + 1, |cnts|);
  }

  /** The broadcast argument: a string or a Vector. */
  datatype Broadcastable = BStr(s: string) | BVec(v: seq<real>)

  /** `broadcast` in one process: the source id must be a host, and the
      result is the string length or the vector size. */
  function BroadcastSerial(arg: Broadcastable, srcid: real, numprocs: int): (r: Result<int>)
    ensures r.Ok? <==> 0.0 <= srcid <= (numprocs - 1) as real
    ensures r.Ok? ==> r.value >= 0
    ensures r.Ok? && arg.BStr? ==> r.value == |arg.s|
    ensures r.Ok? && arg.BVec? ==> r.value == |arg.v|
  {
    if srcid < 0.0 || srcid > (numprocs - 1) as real then Err("arg out of range")
    else if arg.BStr? then Ok(|arg.s|)
    else Ok(|arg.v|)
  }
}
