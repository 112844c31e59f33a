/** Argument lists (third_part/abi/argument.go): heads in order, then the tails that offsets in the heads point to. */
module AbiArguments {
  import opened AbiCodec
  import opened AbiWords
  import opened Wrappers

  datatype Argument = Argument(ty: Type, indexed: bool)

  function NonIndexed(args: seq<Argument>): seq<Argument> {
    if args == [] then []
    else
      var rest, last := NonIndexed(args[..|args| - 1]), args[|args| - 1];
      if last.indexed then rest else rest + [last]
  }

  ghost predicate NoneIndexed(args: seq<Argument>) {
    forall i | 0 <= i < |args| :: !args[i].indexed
  }

  lemma {:induction false} NonIndexedAll(args: seq<Argument>)
    requires NoneIndexed(args)
    ensures NonIndexed(args) == args
  {
    if args != [] {
      NonIndexedAll(args[..|args| - 1]);
      assert args == args[..|args| - 1] + [args[|args| - 1]];
    }
  }

  // ----- Layout

  /** The length of the heads, as the encoder reckons it. */
  ghost function HeadSize(args: seq<Argument>): nat {
    if args == [] then 0 else HeadSize(args[..|args| - 1]) + InputSize(args[|args| - 1].ty)
  }

  /** Of an array only the outermost size is counted. */
  function InputSize(t: Type): nat {
    if t.ArrayTy? then WORD * t.size else WORD
  }

  /** The length of the heads, as they are and as the decoder reckons it. */
  ghost function Start(args: seq<Argument>): nat {
    if args == [] then 0 else Start(args[..|args| - 1]) + FullSize(args[|args| - 1].ty)
  }

  /** The tails of the first `n` values. */
  ghost function Tails(args: seq<Argument>, vs: seq<Value>, n: nat): Bytes
    requires n <= |args| && n <= |vs|
  {
    if n == 0 then []
    else
      var t := args[n - 1].ty;
      Tails(args, vs, n - 1) + (if RequiresLengthPrefix(t) then Encode(t, vs[n - 1]) else [])
  }

  /** The heads of the first `n` values: an offset for each value with a length prefix, the value itself otherwise. */
  ghost function Heads(args: seq<Argument>, vs: seq<Value>, base: nat, n: nat): Bytes
    requires n <= |args| && n <= |vs|
  {
    if n == 0 then []
    else Heads(args, vs, base, n - 1) + Head(args, vs, base, n - 1)
  }

  ghost function Head(args: seq<Argument>, vs: seq<Value>, base: nat, i: nat): Bytes
    requires i < |args| && i < |vs|
  {
    if RequiresLengthPrefix(args[i].ty) then Word(base + |Tails(args, vs, i)|) else Encode(args[i].ty, vs[i])
  }

  /** The whole encoding. */
  ghost function Packed(args: seq<Argument>, vs: seq<Value>): Bytes
    requires |args| == |vs|
  {
    Heads(args, vs, HeadSize(args), |args|) + Tails(args, vs, |args|)
  }

  /** The values of the first `n` arguments. */
  ghost function Unpacked(args: seq<Argument>, data: Bytes, n: nat): Option<seq<Value>>
    requires n <= |args|
  {
    if n == 0 then Some([])
    else
      var vs, v := Unpacked(args, data, n - 1), Decode(Start(args[..n - 1]), args[n - 1].ty, data);
      if vs.None? || v.None? then None else Some(vs.value + [v.value])
  }

  /** The first `n` values are of their arguments' types. */
  ghost predicate TypedArgs(args: seq<Argument>, vs: seq<Value>, n: nat)
    requires n <= |args| && n <= |vs|
  {
    n == 0 || (TypedArgs(args, vs, n - 1) && Typed(args[n - 1].ty, vs[n - 1]))
  }

  /** No value among the first `n` holds an empty list of arrays. */
  ghost predicate PackableArgs(args: seq<Argument>, vs: seq<Value>, n: nat)
    requires n <= |args| && n <= |vs|
  {
    n == 0 || (PackableArgs(args, vs, n - 1) && Packable(args[n - 1].ty, vs[n - 1]))
  }

  /** Whether the first `n` values are packed; the first one that is not decides. */
  ghost function ArgsOutcome(args: seq<Argument>, vs: seq<Value>, n: nat): Outcome
    requires n <= |args| && n <= |vs|
  {
    if n == 0 then Done([])
    else
      var before, last := ArgsOutcome(args, vs, n - 1), Packing(args[n - 1].ty, vs[n - 1]);
      if !before.Done? then before else if last.Done? then Done([]) else last
  }

  lemma {:induction false} ArgsFail(args: seq<Argument>, vs: seq<Value>, m: nat, n: nat)
    requires m <= n <= |args| && n <= |vs| && !ArgsOutcome(args, vs, m).Done?
    ensures ArgsOutcome(args, vs, n) == ArgsOutcome(args, vs, m)
  {
    if m < n { ArgsFail(args, vs, m, n - 1); }
  }

  lemma {:induction false} ArgsExact(args: seq<Argument>, vs: seq<Value>, n: nat)
    requires n <= |args| && n <= |vs|
    ensures ArgsOutcome(args, vs, n).Done? <==> TypedArgs(args, vs, n) && PackableArgs(args, vs, n)
    ensures TypedArgs(args, vs, n) && !PackableArgs(args, vs, n) ==> ArgsOutcome(args, vs, n) == Panicked
  {
    if n > 0 {
      ArgsExact(args, vs, n - 1);
      PackingExact(args[n - 1].ty, vs[n - 1]);
    }
  }

  /** What packing a list of values gives. */
  ghost function PackingArgs(args: seq<Argument>, vs: seq<Value>): Outcome {
    if |args| != |vs| then Refused
    else if ArgsOutcome(args, vs, |vs|).Done? then Done(Packed(args, vs))
    else ArgsOutcome(args, vs, |vs|)
  }

  // ----- The two operations

  method InputOffset(args: seq<Argument>) returns (offset: nat)
    ensures offset == HeadSize(args)
  {
    offset := 0;
    for i := 0 to |args|
      invariant offset == HeadSize(args[..i])
    {
      assert args[..i + 1][..i] == args[..i];
      offset := offset + InputSize(args[i].ty);
    }
    assert args[..|args|] == args;
  }

  /** Put argument `i` behind the heads `ret` and, if it has a length prefix, the tails `variableInput`. */
  method Append(args: seq<Argument>, vs: seq<Value>, base: nat, i: nat, ret: Bytes, variableInput: Bytes, packed: Bytes)
    returns (ret': Bytes, variableInput': Bytes)
    requires i < |args| && i < |vs| && packed == Encode(args[i].ty, vs[i])
    requires ret == Heads(args, vs, base, i) && variableInput == Tails(args, vs, i)
    ensures ret' == Heads(args, vs, base, i + 1) && variableInput' == Tails(args, vs, i + 1)
  {
    if RequiresLengthPrefix(args[i].ty) {
      NextPrefixed(args, vs, base, i);
      ret', variableInput' := ret + Word(base + |variableInput|), variableInput + packed;
    } else {
      NextInline(args, vs, base, i);
      ret', variableInput' := ret + packed, variableInput;
    }
  }

  /** Encode values, one for each argument. */
  method PackArguments(args: seq<Argument>, vs: seq<Value>) returns (r: Outcome)
    ensures r == PackingArgs(args, vs)
    ensures |args| != |vs| ==> r == Refused
    ensures |args| == |vs| ==> (r.Done? <==> TypedArgs(args, vs, |vs|) && PackableArgs(args, vs, |vs|))
    ensures |args| == |vs| && TypedArgs(args, vs, |vs|) && !PackableArgs(args, vs, |vs|) ==> r == Panicked
    ensures r.Done? ==> r.bytes == Packed(args, vs)
  {
    if |args| != |vs| { return Refused; }
    ArgsExact(args, vs, |vs|);
    var inputOffset := InputOffset(args);
    var ret: Bytes, variableInput: Bytes := [], [];
    for i := 0 to |vs|
      invariant ret == Heads(args, vs, inputOffset, i) && variableInput == Tails(args, vs, i)
      invariant ArgsOutcome(args, vs, i).Done?
    {
      var packed := Pack(args[i].ty, vs[i]);
      if !packed.Done? {
        ArgsFail(args, vs, i + 1, |vs|);
        return packed;
      }
      ret, variableInput := Append(args, vs, inputOffset, i, ret, variableInput, packed.bytes);
    }
    return Done(ret + variableInput);
  }

  lemma {:induction false} NextPrefixed(args: seq<Argument>, vs: seq<Value>, base: nat, i: nat)
    requires i < |args| && i < |vs| && RequiresLengthPrefix(args[i].ty)
    ensures Heads(args, vs, base, i + 1) == Heads(args, vs, base, i) + Word(base + |Tails(args, vs, i)|)
    ensures Tails(args, vs, i + 1) == Tails(args, vs, i) + Encode(args[i].ty, vs[i])
  {
  }

  lemma {:induction false} NextInline(args: seq<Argument>, vs: seq<Value>, base: nat, i: nat)
    requires i < |args| && i < |vs| && !RequiresLengthPrefix(args[i].ty)
    ensures Heads(args, vs, base, i + 1) == Heads(args, vs, base, i) + Encode(args[i].ty, vs[i])
    ensures Tails(args, vs, i + 1) == Tails(args, vs, i)
  {
    assert Tails(args, vs, i + 1) == Tails(args, vs, i) + [];
  }

  lemma {:induction false} UnpackedFails(args: seq<Argument>, data: Bytes, m: nat, n: nat)
    requires m <= n <= |args| && Unpacked(args, data, m) == None
    ensures Unpacked(args, data, n) == None
  {
    if m < n { UnpackedFails(args, data, m, n - 1); }
  }

  /** The number of elements of an array, all its levels counted. */
  method GetArraySize(t: Type) returns (size: nat)
    requires t.ArrayTy?
    ensures size == Words(t)
  {
    size := t.size;
    var e := t.elem;
    while e.ArrayTy?
      invariant size * Words(e) == Words(t)
      decreases e
    {
      Rescale(size, e.size, Words(e.elem));
      size, e := size * e.size, e.elem;
    }
  }

  /** Decode the arguments that are not indexed. */
  method UnpackValues(arguments: seq<Argument>, data: Bytes) returns (r: Option<seq<Value>>)
    ensures var args := NonIndexed(arguments); r == Unpacked(args, data, |args|)
  {
    var args := NonIndexed(arguments);
    var retval: seq<Value>, virtualArgs := [], 0;
    for index := 0 to |args|
      invariant Unpacked(args, data, index) == Some(retval) && (index + virtualArgs) * WORD == Start(args[..index])
    {
      assert args[..index + 1][..index] == args[..index];
      var t := args[index].ty;
      var v := ToGoType((index + virtualArgs) * WORD, t, data);
      WordsSize(t);
      if t.ArrayTy? {
        var size := GetArraySize(t);
        virtualArgs := virtualArgs + size - 1;
      }
      if v.None? {
        UnpackedFails(args, data, index + 1, |args|);
        return None;
      }
      retval := retval + [v.value];
    }
    return Some(retval);
  }

  // ----- Round trip

  /** The first `n` values have their arguments' types and numbers in range. */
  ghost predicate FitArgs(args: seq<Argument>, vs: seq<Value>, n: nat)
    requires n <= |args| && n <= |vs|
  {
    n == 0 || (FitArgs(args, vs, n - 1) && Fits(args[n - 1].ty, vs[n - 1]))
  }

  /** Values that fit are packed or panic, and never refused. */
  lemma {:induction false} FitArgsTyped(args: seq<Argument>, vs: seq<Value>, n: nat)
    requires n <= |args| && n <= |vs| && FitArgs(args, vs, n)
    ensures TypedArgs(args, vs, n)
  {
    if n > 0 {
      FitArgsTyped(args, vs, n - 1);
      FitsTyped(args[n - 1].ty, vs[n - 1]);
    }
  }

  /** Types for which each value alone comes back, if enough data follows one without width. */
  ghost predicate Readable(t: Type) {
    Static(t) || Prefixed(t) || Bare(t)
  }

  ghost predicate AllReadable(args: seq<Argument>) {
    args == [] || (AllReadable(args[..|args| - 1]) && Readable(args[|args| - 1].ty))
  }

  ghost predicate HasPrefix(args: seq<Argument>) {
    args != [] && (HasPrefix(args[..|args| - 1]) || RequiresLengthPrefix(args[|args| - 1].ty))
  }

  ghost function Prefixes(args: seq<Argument>): nat {
    if args == [] then 0 else Prefixes(args[..|args| - 1]) + if RequiresLengthPrefix(args[|args| - 1].ty) then 1 else 0
  }

  /** What is the least encoding of values for these arguments: the heads and a word for each tail. */
  ghost function LeastSize(args: seq<Argument>): nat {
    Start(args) + WORD * Prefixes(args)
  }

  /** Enough of `size` bytes follows each of the first `n` arguments that has no width. */
  ghost predicate Rooms(args: seq<Argument>, n: nat, size: nat)
    requires n <= |args|
  {
    n == 0 || (Rooms(args, n - 1, size)
               && (FullSize(args[n - 1].ty) == 0 ==> Start(args[..n - 1]) + Need(args[n - 1].ty) <= size))
  }

  lemma {:induction false} RoomOf(args: seq<Argument>, i: nat, n: nat, size: nat, more: nat)
    requires i < n <= |args| && Rooms(args, n, size) && size <= more
    ensures FullSize(args[i].ty) == 0 ==> Start(args[..i]) + Need(args[i].ty) <= more
  {
    if i < n - 1 { RoomOf(args, i, n - 1, size, more); }
  }

  lemma {:induction false} ArgOf(args: seq<Argument>, vs: seq<Value>, i: nat, n: nat)
    requires i < n <= |args| && n <= |vs| && AllReadable(args[..n]) && FitArgs(args, vs, n)
    ensures Readable(args[i].ty) && Fits(args[i].ty, vs[i]) && AllReadable(args[..i]) && FitArgs(args, vs, i)
    ensures RequiresLengthPrefix(args[i].ty) ==> HasPrefix(args[..n])
    decreases n
  {
    assert args[..n][..n - 1] == args[..n - 1];
    if i < n - 1 { ArgOf(args, vs, i, n - 1); }
  }

  lemma {:induction false} HeadWidth(t: Type, v: Value)
    requires Readable(t) && Fits(t, v)
    ensures RequiresLengthPrefix(t) ==> FullSize(t) == WORD && |Encode(t, v)| >= WORD
    ensures !RequiresLengthPrefix(t) ==> |Encode(t, v)| == FullSize(t)
  {
    if Bare(t) {
      BareWidth(t);
      EmptyEncoded(t, v);
    } else if !RequiresLengthPrefix(t) {
      StaticSize(t, v);
    }
  }

  /** The heads of the first `n` values take the room that the decoder reckons with. */
  lemma {:induction false} HeadsSize(args: seq<Argument>, vs: seq<Value>, base: nat, n: nat)
    requires n <= |args| && n <= |vs| && AllReadable(args[..n]) && FitArgs(args, vs, n)
    ensures |Heads(args, vs, base, n)| == Start(args[..n])
  {
    if n > 0 {
      assert args[..n][..n - 1] == args[..n - 1];
      HeadsSize(args, vs, base, n - 1);
      HeadWidth(args[n - 1].ty, vs[n - 1]);
    }
  }

  lemma {:induction false} TailsSize(args: seq<Argument>, vs: seq<Value>, n: nat)
    requires n <= |args| && n <= |vs| && AllReadable(args[..n]) && FitArgs(args, vs, n)
    ensures |Tails(args, vs, n)| >= WORD * Prefixes(args[..n])
  {
    if n > 0 {
      assert args[..n][..n - 1] == args[..n - 1];
      TailsSize(args, vs, n - 1);
      HeadWidth(args[n - 1].ty, vs[n - 1]);
      if RequiresLengthPrefix(args[n - 1].ty) {
        NextPrefixed(args, vs, 0, n - 1);
      } else {
        NextInline(args, vs, 0, n - 1);
      }
    }
  }

  lemma {:induction false} PackedSize(args: seq<Argument>, vs: seq<Value>)
    requires |args| == |vs| && AllReadable(args) && FitArgs(args, vs, |args|)
    ensures |Packed(args, vs)| >= LeastSize(args)
  {
    assert args[..|args|] == args;
    HeadsSize(args, vs, HeadSize(args), |args|);
    TailsSize(args, vs, |args|);
  }

  lemma {:induction false} HeadsPrefix(args: seq<Argument>, vs: seq<Value>, base: nat, i: nat, n: nat)
    requires i <= n <= |args| && n <= |vs|
    ensures Heads(args, vs, base, i) <= Heads(args, vs, base, n)
  {
    if i < n { HeadsPrefix(args, vs, base, i, n - 1); }
  }

  lemma {:induction false} TailsPrefix(args: seq<Argument>, vs: seq<Value>, i: nat, n: nat)
    requires i <= n <= |args| && n <= |vs|
    ensures Tails(args, vs, i) <= Tails(args, vs, n)
  {
    if i < n { TailsPrefix(args, vs, i, n - 1); }
  }

  /** A part that follows `a` in a prefix of `s` stands behind `a` in `s`. */
  lemma {:induction false} Behind(s: Bytes, a: Bytes, b: Bytes)
    requires a + b <= s
    ensures At(s, |a|, b)
  {
    forall k | 0 <= k < |b| ensures s[|a| + k] == b[k] { assert (a + b)[|a| + k] == b[k]; }
  }

  /** Where the head of argument `i` stands. */
  lemma {:induction false} HeadAt(args: seq<Argument>, vs: seq<Value>, i: nat)
    requires |args| == |vs| && i < |args|
    ensures At(Packed(args, vs), |Heads(args, vs, HeadSize(args), i)|, Head(args, vs, HeadSize(args), i))
  {
    var base := HeadSize(args);
    HeadsPrefix(args, vs, base, i + 1, |args|);
    Behind(Packed(args, vs), Heads(args, vs, base, i), Head(args, vs, base, i));
  }

  /** Where the tail of argument `i` stands, if it has one. */
  lemma {:induction false} TailAt(args: seq<Argument>, vs: seq<Value>, i: nat, heads: Bytes)
    requires |args| == |vs| && i < |args| && RequiresLengthPrefix(args[i].ty)
    ensures At(heads + Tails(args, vs, |args|), |heads| + |Tails(args, vs, i)|, Encode(args[i].ty, vs[i]))
  {
    TailsPrefix(args, vs, i + 1, |args|);
    NextPrefixed(args, vs, 0, i);
    Behind(Tails(args, vs, |args|), Tails(args, vs, i), Encode(args[i].ty, vs[i]));
    Shift(heads, Tails(args, vs, |args|), |Tails(args, vs, i)|, Encode(args[i].ty, vs[i]));
  }

  lemma {:induction false} Shift(a: Bytes, s: Bytes, i: nat, b: Bytes)
    requires At(s, i, b)
    ensures At(a + s, |a| + i, b)
  {
  }

  lemma {:induction false} InlinePlaced(args: seq<Argument>, vs: seq<Value>, i: nat)
    requires |args| == |vs| && i < |args| && |Heads(args, vs, HeadSize(args), i)| == Start(args[..i])
    requires !RequiresLengthPrefix(args[i].ty)
    ensures At(Packed(args, vs), Start(args[..i]), Encode(args[i].ty, vs[i]))
  {
    HeadAt(args, vs, i);
  }

  lemma {:induction false} OffsetHead(args: seq<Argument>, vs: seq<Value>, i: nat, base: nat)
    requires i < |args| && i < |vs| && RequiresLengthPrefix(args[i].ty)
    ensures Head(args, vs, base, i) == Word(base + |Tails(args, vs, i)|)
  {
  }

  lemma {:induction false} OffsetPlaced(args: seq<Argument>, vs: seq<Value>, i: nat, data: Bytes, offset: nat)
    requires |args| == |vs| && i < |args| && |Heads(args, vs, HeadSize(args), i)| == Start(args[..i])
    requires data == Packed(args, vs)
    requires RequiresLengthPrefix(args[i].ty) && offset == HeadSize(args) + |Tails(args, vs, i)|
    ensures At(data, Start(args[..i]), Word(offset))
  {
    OffsetHead(args, vs, i, HeadSize(args));
    HeadAt(args, vs, i);
  }

  lemma {:induction false} TailPlaced(args: seq<Argument>, vs: seq<Value>, i: nat, data: Bytes, offset: nat)
    requires |args| == |vs| && i < |args| && AllReadable(args) && FitArgs(args, vs, |args|) && data == Packed(args, vs)
    requires RequiresLengthPrefix(args[i].ty) && offset == Start(args) + |Tails(args, vs, i)|
    ensures At(data, offset, Encode(args[i].ty, vs[i]))
  {
    assert args[..|args|] == args;
    HeadsSize(args, vs, HeadSize(args), |args|);
    TailAt(args, vs, i, Heads(args, vs, HeadSize(args), |args|));
  }

  lemma {:induction false} InlineBack(args: seq<Argument>, vs: seq<Value>, i: nat)
    requires |args| == |vs| && i < |args| && AllReadable(args[..i]) && FitArgs(args, vs, i)
    requires Static(args[i].ty) && Fits(args[i].ty, vs[i])
    ensures Decode(Start(args[..i]), args[i].ty, Packed(args, vs)) == Some(vs[i])
  {
    HeadsSize(args, vs, HeadSize(args), i);
    InlinePlaced(args, vs, i);
    StaticRoundTrip(args[i].ty, vs[i], Packed(args, vs), Start(args[..i]));
  }

  lemma {:induction false} PrefixedBack(args: seq<Argument>, vs: seq<Value>, i: nat, data: Bytes, offset: nat)
    requires |args| == |vs| && i < |args| && AllReadable(args) && FitArgs(args, vs, |args|) && data == Packed(args, vs)
    requires AllReadable(args[..i]) && FitArgs(args, vs, i) && Prefixed(args[i].ty) && Fits(args[i].ty, vs[i])
    requires |data| < MAX_INT63 && offset == Start(args) + |Tails(args, vs, i)| && HeadSize(args) == Start(args)
    ensures Decode(Start(args[..i]), args[i].ty, data) == Some(vs[i])
  {
    HeadsSize(args, vs, HeadSize(args), i);
    OffsetPlaced(args, vs, i, data, offset);
    TailPlaced(args, vs, i, data, offset);
    PrefixedRoundTrip(args[i].ty, vs[i], data, Start(args[..i]), offset);
  }

  lemma {:induction false} EmptyBack(args: seq<Argument>, vs: seq<Value>, i: nat)
    requires |args| == |vs| && i < |args| && AllReadable(args) && FitArgs(args, vs, |args|)
    requires FullSize(args[i].ty) == 0 && Fits(args[i].ty, vs[i]) && Rooms(args, |args|, LeastSize(args))
    ensures Decode(Start(args[..i]), args[i].ty, Packed(args, vs)) == Some(vs[i])
  {
    PackedSize(args, vs);
    RoomOf(args, i, |args|, LeastSize(args), |Packed(args, vs)|);
    EmptyRoundTrip(args[i].ty, vs[i], Packed(args, vs), Start(args[..i]));
  }

  /**
  What makes all values of a list come back: no argument is indexed, the types are readable, offsets
  are right if there are any, and there is enough data.
  */
  ghost predicate Carried(args: seq<Argument>) {
    && NoneIndexed(args)
    && AllReadable(args) && (HasPrefix(args) ==> HeadSize(args) == Start(args))
    && Rooms(args, |args|, LeastSize(args))
  }

  lemma {:induction false} ArgRoundTrip(args: seq<Argument>, vs: seq<Value>, i: nat)
    requires |args| == |vs| && i < |args| && Carried(args) && FitArgs(args, vs, |args|)
    requires |Packed(args, vs)| < MAX_INT63
    ensures Decode(Start(args[..i]), args[i].ty, Packed(args, vs)) == Some(vs[i])
  {
    assert args[..|args|] == args;
    ArgOf(args, vs, i, |args|);
    if Static(args[i].ty) {
      InlineBack(args, vs, i);
    } else if Prefixed(args[i].ty) {
      PrefixedBack(args, vs, i, Packed(args, vs), Start(args) + |Tails(args, vs, i)|);
    } else {
      BareWidth(args[i].ty);
      EmptyBack(args, vs, i);
    }
  }

  lemma {:induction false} UnpackedStep(args: seq<Argument>, vs: seq<Value>, data: Bytes, n: nat)
    requires n < |args| == |vs| && Unpacked(args, data, n) == Some(vs[..n])
    requires Decode(Start(args[..n]), args[n].ty, data) == Some(vs[n])
    ensures Unpacked(args, data, n + 1) == Some(vs[..n + 1])
  {
    assert vs[..n + 1] == vs[..n] + [vs[n]];
  }

  /** All values come back. */
  lemma {:induction false} RoundTrip(args: seq<Argument>, vs: seq<Value>, n: nat)
    requires |args| == |vs| && n <= |args| && Carried(args) && FitArgs(args, vs, |args|)
    requires |Packed(args, vs)| < MAX_INT63
    ensures Unpacked(args, Packed(args, vs), n) == Some(vs[..n])
  {
    if n == 0 {
      assert Unpacked(args, Packed(args, vs), 0) == Some([]);
    } else {
      RoundTrip(args, vs, n - 1);
      ArgRoundTrip(args, vs, n - 1);
      UnpackedStep(args, vs, Packed(args, vs), n - 1);
    }
  }

  // ----- Packing, then unpacking

  /** Values that are packed and then decoded as themselves. */
  ghost predicate Returned(args: seq<Argument>, vs: seq<Value>) {
    var r, decoded := PackingArgs(args, vs), NonIndexed(args);
    r.Done? && Unpacked(decoded, r.bytes, |decoded|) == Some(vs)
  }

  lemma {:induction false} CarriedPackable(args: seq<Argument>, vs: seq<Value>, n: nat)
    requires n <= |args| && n <= |vs| && AllReadable(args[..n]) && FitArgs(args, vs, n)
    ensures PackableArgs(args, vs, n)
  {
    if n > 0 {
      assert args[..n][..n - 1] == args[..n - 1];
      CarriedPackable(args, vs, n - 1);
      StaticPackable(args[n - 1].ty, vs[n - 1]);
    }
  }

  lemma {:induction false} CarriedReturned(args: seq<Argument>, vs: seq<Value>)
    requires |args| == |vs| && Carried(args) && FitArgs(args, vs, |args|) && |Packed(args, vs)| < MAX_INT63
    ensures Returned(args, vs)
  {
    assert args[..|args|] == args && vs[..|vs|] == vs;
    FitArgsTyped(args, vs, |args|);
    CarriedPackable(args, vs, |args|);
    ArgsExact(args, vs, |args|);
    NonIndexedAll(args);
    RoundTrip(args, vs, |args|);
  }

  /** Pack values and unpack the result; of a list that meets the condition they come back. */
  method PackUnpack(args: seq<Argument>, vs: seq<Value>) returns (r: Option<seq<Value>>)
    ensures r == Some(vs) <==> Returned(args, vs)
    ensures |args| == |vs| && Carried(args) && FitArgs(args, vs, |args|) && |Packed(args, vs)| < MAX_INT63 ==>
              r == Some(vs)
  {
    if |args| == |vs| && Carried(args) && FitArgs(args, vs, |args|) && |Packed(args, vs)| < MAX_INT63 {
      CarriedReturned(args, vs);
    }
    var packed := PackArguments(args, vs);
    if packed.Done? { r := UnpackValues(args, packed.bytes); } else { r := None; }
  }
}
