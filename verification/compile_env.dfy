/** Compile-time environments: lists of frames of names, innermost frame
    last. The compilers resolve every name to a position once, and the
    machines use the position to reach the value at run time. */
module CompileEnv {
  import opened Wrappers
  import opened Positions
  import opened Code

  type Frame = seq<string>
  type Env = seq<Frame>

  /** `value_index`: the first index of `x` in the frame, or -1. */
  function ValueIndex(frame: Frame, x: string): (i: int)
    ensures -1 <= i < |frame|
    ensures i == -1 <==> x !in frame
    ensures i >= 0 ==> frame[i] == x && forall j :: 0 <= j < i ==> frame[j] != x
    decreases |frame|
  {
    if frame == [] then -1
    else if frame[0] == x then 0
    else
      var k := ValueIndex(frame[1..], x);
      if k == -1 then -1 else k + 1
  }

  /** `compile_time_environment_position`: searches the frames from the
      innermost outwards. A name bound nowhere has no position (the source
      then indexes below the first frame and fails). */
  function Position(env: Env, x: string): (r: Option<Pos>)
    ensures r.None? <==> forall k :: 0 <= k < |env| ==> x !in env[k]
    ensures r.Some? ==>
              && r.value.frame < |env|
              && r.value.index == ValueIndex(env[r.value.frame], x)
              && r.value.index < |env[r.value.frame]|
              && env[r.value.frame][r.value.index] == x
              && forall k :: r.value.frame < k < |env| ==> x !in env[k]
    decreases |env|
  {
    if env == [] then None
    else
      var last := ValueIndex(env[|env| - 1], x);
      if last != -1 then Some(Pos(|env| - 1, last))
      else Position(env[..|env| - 1], x)
  }

  /** The compile-time lookup every compiler performs for a name: its
      position, or a compile error when no frame declares it. */
  function Resolve(ce: Env, x: string): (r: Result<Pos, CompileError>)
    ensures r.Ok? <==> Position(ce, x).Some?
    ensures r.Ok? ==> r.value == Position(ce, x).value
  {
    match Position(ce, x)
    case Some(p) => Ok(p)
    case None => Err(Unbound(x))
  }

  /** `compile_time_environment_extend`: a copy of the environment with
      one more, innermost, frame. */
  function Extend(vs: Frame, env: Env): (r: Env)
    ensures |r| == |env| + 1 && r[..|env|] == env && r[|env|] == vs
  {
    env + [vs]
  }

  /** Declaring names in a new frame shadows the outer frames for those
      names and leaves every other name where it was. */
  lemma PositionInExtended(vs: Frame, env: Env, x: string)
    ensures Position(Extend(vs, env), x) ==
              if x in vs then Some(Pos(|env|, ValueIndex(vs, x))) else Position(env, x)
  {
    assert Extend(vs, env)[..|env|] == env;
  }

  /** A name's position does not change when frames are added inside it
      that do not declare it. */
  lemma {:induction false} PositionStable(env: Env, inner: Env, x: string)
    requires forall k :: 0 <= k < |inner| ==> x !in inner[k]
    ensures Position(env + inner, x) == Position(env, x)
    decreases |inner|
  {
    if inner != [] {
      var front := inner[..|inner| - 1];
      assert env + inner == Extend(inner[|inner| - 1], env + front);
      PositionInExtended(inner[|inner| - 1], env + front, x);
      PositionStable(env, front, x);
    } else {
      assert env + inner == env;
    }
  }

  /** The frame of constant names that follows the builtins in every
      variant's global environment. */
  const ConstantNames: Frame :=
    ["undefined", "math_E", "math_LN10", "math_LN2", "math_LOG10E",
     "math_LOG2E", "math_PI", "math_SQRT1_2", "math_SQRT2"]

  /** The global compile-time environment of a variant whose builtins are
      named `builtins`, in id order. */
  function GlobalEnv(builtins: Frame): (r: Env)
    ensures |r| == 2 && r[0] == builtins && r[1] == ConstantNames
  {
    [builtins, ConstantNames]
  }
}
