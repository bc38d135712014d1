/** Derivation along paths such as m/0/1'/2. */
module Paths {
  import opened Wrappers
  import opened HdKeys
  import Text

  const ROOT_ALIASES: seq<string> := ["m", "M", "m'", "M'"]

  // A step written in decimal digits, hardened by a final quote.  Nothing else is a number here.
  function ParseStep(step: string): Option<nat> {
    var isHardened := step != "" && step[|step| - 1] == '\'';
    var digits := if isHardened then step[..|step| - 1] else step;
    if !Text.IsDecimal(digits) then None
    else Some(Text.DecimalValue(digits) + (if isHardened then HARDENED else 0))
  }

  function ParseSteps(steps: seq<string>): Option<seq<nat>> {
    if steps == [] then Some([])
    else
      var first, rest := ParseStep(steps[0]), ParseSteps(steps[1..]);
      if first.None? || rest.None? then None else Some([first.value] + rest.value)
  }

  // _getDerivationIndexes: the indexes of a path, not yet checked for their range.
  function DerivationIndexes(path: string): Option<seq<nat>> {
    var steps := Text.Split(path, '/');
    if path in ROOT_ALIASES then Some([])
    else if steps[0] !in ROOT_ALIASES then None
    else ParseSteps(steps[1..])
  }

  predicate Below(indexes: seq<nat>, bound: nat) {
    forall i :: 0 <= i < |indexes| ==> indexes[i] < bound
  }

  predicate IsValidPath(path: string, bound: nat) {
    DerivationIndexes(path).Some? && Below(DerivationIndexes(path).value, bound)
  }

  // The reduce over the indexes.
  function DeriveAll<P(!new)>(env: Env<P>, k: HDPrivateKey, indexes: seq<nat>, nonCompliant: bool)
    : Result<HDPrivateKey, Error>
    requires env.Valid()
    decreases |indexes|
  {
    if indexes == [] then Ok(k)
    else
      match env.Derive(k, indexes[0], false, nonCompliant)
      case Err(e) => Err(e)
      case Ok(child) => DeriveAll(env, child, indexes[1..], nonCompliant)
  }

  function DeriveFromString<P(!new)>(env: Env<P>, k: HDPrivateKey, path: string, nonCompliant: bool)
    : Result<HDPrivateKey, Error>
    requires env.Valid()
  {
    if !IsValidPath(path, MAX_INDEX) then Err(InvalidPathString)
    else DeriveAll(env, k, DerivationIndexes(path).value, nonCompliant)
  }

  function DeriveAllPublic<P(!new)>(env: Env<P>, k: HDPublicKey<P>, indexes: seq<nat>): Result<HDPublicKey<P>, Error>
    requires env.Valid()
    decreases |indexes|
  {
    if indexes == [] then Ok(k)
    else
      match env.DerivePublic(k, indexes[0], false)
      case Err(e) => Err(e)
      case Ok(child) => DeriveAllPublic(env, child, indexes[1..])
  }

  function DerivePublicFromString<P(!new)>(env: Env<P>, k: HDPublicKey<P>, path: string): Result<HDPublicKey<P>, Error>
    requires env.Valid()
  {
    if '\'' in path then Err(CantDeriveHardened)
    else if !IsValidPath(path, HARDENED) then Err(InvalidPathString)
    else DeriveAllPublic(env, k, DerivationIndexes(path).value)
  }

  // ---------------------------------------------------------------- paths as texts

  datatype Step = Step(index: nat, hardened: bool)

  function StepText(s: Step): string {
    Text.Decimal(s.index) + (if s.hardened then "'" else "")
  }

  function StepIndex(s: Step): nat {
    s.index + (if s.hardened then HARDENED else 0)
  }

  function StepTexts(steps: seq<Step>): seq<string> {
    seq(|steps|, i requires 0 <= i < |steps| => StepText(steps[i]))
  }

  function StepIndexes(steps: seq<Step>): seq<nat> {
    seq(|steps|, i requires 0 <= i < |steps| => StepIndex(steps[i]))
  }

  // The text of a path from one of the root's names.
  function PathText(root: string, steps: seq<Step>): string {
    Text.Join([root] + StepTexts(steps), '/')
  }

  lemma ParseStepText(s: Step)
    ensures ParseStep(StepText(s)) == Some(StepIndex(s))
    ensures '/' !in StepText(s)
    ensures '\'' in StepText(s) <==> s.hardened
  {
    hide Text.Decimal, Text.DecimalValue;
    var d := Text.Decimal(s.index);
    Text.DecimalRoundTrip(s.index);
    var t := StepText(s);
    if s.hardened {
      assert t[..|t| - 1] == d && t[|t| - 1] == '\'';
    } else {
      assert t == d;
      assert Text.IsDigit(t[|t| - 1]);
    }
  }

  lemma {:induction false} ParseStepTexts(steps: seq<Step>)
    ensures ParseSteps(StepTexts(steps)) == Some(StepIndexes(steps))
    decreases |steps|
  {
    hide ParseStep, StepText, StepIndex;
    if steps == [] {
      assert StepTexts(steps) == [] && StepIndexes(steps) == [];
    } else {
      ParseStepText(steps[0]);
      ParseStepTexts(steps[1..]);
      assert StepTexts(steps)[1..] == StepTexts(steps[1..]);
      assert StepIndexes(steps) == [StepIndex(steps[0])] + StepIndexes(steps[1..]);
    }
  }

  // Writing steps down and parsing the path gives the steps' indexes.
  lemma ParsedPath(root: string, steps: seq<Step>)
    requires root in ROOT_ALIASES
    ensures DerivationIndexes(PathText(root, steps)) == Some(StepIndexes(steps))
  {
    hide ParseSteps, ParseStep, StepText, Text.Split, Text.Join;
    var parts := [root] + StepTexts(steps);
    NoSlash(root);
    forall i | 0 <= i < |parts|
      ensures '/' !in parts[i]
    {
      if i > 0 {
        ParseStepText(steps[i - 1]);
      }
    }
    Text.SplitJoin(parts, '/');
    assert parts[1..] == StepTexts(steps);
    ParseStepTexts(steps);
    if PathText(root, steps) in ROOT_ALIASES {
      NoSlash(PathText(root, steps));
      Text.SplitNone(PathText(root, steps), '/');
      assert |parts| == 1 && StepIndexes(steps) == [];
    }
  }

  lemma NoSlash(path: string)
    requires path in ROOT_ALIASES
    ensures '/' !in path
  {
  }

  // ---------------------------------------------------------------- which texts are paths

  // Digits, and a quote if the step is hardened, which adds 2^31.
  predicate Reads(step: string, digits: string, quote: bool, index: nat) {
    && step == digits + (if quote then "'" else "")
    && digits != "" && (forall i :: 0 <= i < |digits| ==> '0' <= digits[i] <= '9')
    && index == Text.DecimalValue(digits) + (if quote then 0x8000_0000 else 0)
  }

  ghost predicate IsStep(step: string, index: nat) {
    exists digits, quote :: Reads(step, digits, quote, index)
  }

  ghost predicate IsPath(path: string, indexes: seq<nat>, pieces: seq<string>) {
    && |pieces| == |indexes| + 1 && path == Text.Join(pieces, '/')
    && (forall i :: 0 <= i < |pieces| ==> '/' !in pieces[i])
    && pieces[0] in ["m", "M", "m'", "M'"]
    && (forall i :: 0 <= i < |indexes| ==> IsStep(pieces[i + 1], indexes[i]))
  }

  lemma StepReadIff(step: string, index: nat)
    ensures ParseStep(step) == Some(index) <==> IsStep(step, index)
  {
    hide Text.DecimalValue;
    if ParseStep(step) == Some(index) {
      var quote := step[|step| - 1] == '\'';
      var digits := if quote then step[..|step| - 1] else step;
      assert step == digits + if quote then "'" else "";
      assert Reads(step, digits, quote, index);
    }
    if digits, quote :| Reads(step, digits, quote, index) {
      if quote {
        assert step[|step| - 1] == '\'' && step[..|step| - 1] == digits;
      } else {
        assert step == digits;
      }
    }
  }

  lemma {:induction false} StepsReadIff(steps: seq<string>, indexes: seq<nat>)
    ensures ParseSteps(steps) == Some(indexes) <==>
            |steps| == |indexes| && forall i :: 0 <= i < |steps| ==> IsStep(steps[i], indexes[i])
    decreases |steps|
  {
    hide ParseStep, IsStep;
    if steps != [] {
      var rest := steps[1..];
      if indexes != [] {
        StepReadIff(steps[0], indexes[0]);
        StepsReadIff(rest, indexes[1..]);
        assert indexes == [indexes[0]] + indexes[1..];
        assert forall i :: 0 < i < |steps| ==> steps[i] == rest[i - 1];
        assert forall i :: 0 <= i < |rest| ==> rest[i] == steps[i + 1];
        if ParseSteps(steps) == Some(indexes) {
          assert ParseStep(steps[0]) == Some(indexes[0]) && ParseSteps(rest) == Some(indexes[1..]);
        } else if |steps| == |indexes| && forall i :: 0 <= i < |steps| ==> IsStep(steps[i], indexes[i]) {
          forall i | 0 <= i < |rest|
            ensures IsStep(rest[i], indexes[1..][i])
          {
            assert IsStep(steps[i + 1], indexes[i + 1]);
          }
        }
      }
    }
  }

  // A text is read as indexes exactly if slashes separate a name of the root and a step for each of them.
  lemma PathReadIff(path: string, indexes: seq<nat>)
    ensures DerivationIndexes(path) == Some(indexes) <==> exists pieces :: IsPath(path, indexes, pieces)
  {
    hide ParseSteps, Text.Split, Text.Join, IsStep;
    var split := Text.Split(path, '/');
    Text.JoinSplit(path, '/');
    StepsReadIff(split[1..], indexes);
    if path in ROOT_ALIASES {
      NoSlash(path);
      Text.SplitNone(path, '/');
      NoSteps();
    }
    if DerivationIndexes(path) == Some(indexes) {
      assert |split| == |indexes| + 1;
      assert forall i :: 0 <= i < |indexes| ==> split[i + 1] == split[1..][i];
      assert IsPath(path, indexes, split);
    }
    if pieces :| IsPath(path, indexes, pieces) {
      Text.SplitJoin(pieces, '/');
      assert split == pieces;
      forall i | 0 <= i < |indexes|
        ensures IsStep(split[1..][i], indexes[i])
      {
        assert split[1..][i] == pieces[i + 1];
      }
    }
  }

  lemma NoSteps()
    ensures ParseSteps([]) == Some([])
  {
  }

  // Derivation along a path is refused as a whole exactly for texts that are no path with indexes below 2^32, in
  // public derivation below 2^31, and there with another error for a quote.
  lemma PathRefusedIff<P(!new)>(env: Env<P>, k: HDPrivateKey, q: HDPublicKey<P>, path: string, nonCompliant: bool)
    requires env.Valid()
    ensures DeriveFromString(env, k, path, nonCompliant) == Err(InvalidPathString) <==>
            !exists indexes, pieces ::
               IsPath(path, indexes, pieces) && forall i :: 0 <= i < |indexes| ==> indexes[i] < 0x1_0000_0000
    ensures '\'' in path ==> DerivePublicFromString(env, q, path) == Err(CantDeriveHardened)
    ensures '\'' !in path ==>
              (DerivePublicFromString(env, q, path) == Err(InvalidPathString) <==>
               !exists indexes, pieces ::
                  IsPath(path, indexes, pieces) && forall i :: 0 <= i < |indexes| ==> indexes[i] < 0x8000_0000)
  {
    hide env.Valid, DerivationIndexes, DeriveAll, DeriveAllPublic, IsPath;
    var read := DerivationIndexes(path);
    forall indexes, pieces | IsPath(path, indexes, pieces)
      ensures read == Some(indexes)
    {
      PathReadIff(path, indexes);
    }
    if read.Some? {
      PathReadIff(path, read.value);
      NotRefused(env, k, read.value, nonCompliant);
      NotRefusedPublic(env, q, read.value);
      var pieces :| IsPath(path, read.value, pieces);
    }
  }

  lemma {:induction false} NotRefused<P(!new)>(env: Env<P>, k: HDPrivateKey, indexes: seq<nat>, nonCompliant: bool)
    requires env.Valid()
    ensures DeriveAll(env, k, indexes, nonCompliant) != Err(InvalidPathString)
    decreases |indexes|
  {
    hide env.Valid, env.Derive;
    if indexes != [] {
      env.DeriveFindsFirst(k, indexes[0], false, nonCompliant);
      var child := env.Derive(k, indexes[0], false, nonCompliant);
      if child.Ok? {
        NotRefused(env, child.value, indexes[1..], nonCompliant);
      }
    }
  }

  lemma {:induction false} NotRefusedPublic<P(!new)>(env: Env<P>, k: HDPublicKey<P>, indexes: seq<nat>)
    requires env.Valid()
    ensures DeriveAllPublic(env, k, indexes) != Err(InvalidPathString)
    decreases |indexes|
  {
    hide env.Valid, env.DerivePublic;
    if indexes != [] {
      PublicError(env, k, indexes[0]);
      var child := env.DerivePublic(k, indexes[0], false);
      if child.Ok? {
        NotRefusedPublic(env, child.value, indexes[1..]);
      }
    }
  }

  lemma {:induction false} PublicError<P(!new)>(env: Env<P>, k: HDPublicKey<P>, index: nat)
    requires env.Valid()
    ensures env.DerivePublic(k, index, false) != Err(InvalidPathString)
    decreases HARDENED - index
  {
    hide env.Valid, env.PublicChild, env.PublicChildPoint;
    if index < HARDENED && env.PublicChildPoint(k, index) == env.curve.zero {
      PublicError(env, k, index + 1);
    }
  }

  // ---------------------------------------------------------------- paths as chains

  function Chain<P(!new)>(env: Env<P>, k: HDPrivateKey, steps: seq<Step>, nonCompliant: bool)
    : Result<HDPrivateKey, Error>
    requires env.Valid()
    decreases |steps|
  {
    if steps == [] then Ok(k)
    else
      match env.Derive(k, steps[0].index, steps[0].hardened, nonCompliant)
      case Err(e) => Err(e)
      case Ok(child) => Chain(env, child, steps[1..], nonCompliant)
  }

  // A hardened step counts from 2^31.
  lemma HardenedIndex<P(!new)>(env: Env<P>, k: HDPrivateKey, s: Step, nonCompliant: bool)
    requires env.Valid() && StepIndex(s) < MAX_INDEX
    ensures env.Derive(k, s.index, s.hardened, nonCompliant) == env.Derive(k, StepIndex(s), false, nonCompliant)
  {
    hide env.Valid, env.Child, env.ChildScalar;
  }

  lemma {:induction false} ChainIsDeriveAll<P(!new)>(env: Env<P>, k: HDPrivateKey, steps: seq<Step>, nonCompliant: bool)
    requires env.Valid() && Below(StepIndexes(steps), MAX_INDEX)
    ensures Chain(env, k, steps, nonCompliant) == DeriveAll(env, k, StepIndexes(steps), nonCompliant)
    decreases |steps|
  {
    hide env.Valid, env.Derive;
    if steps != [] {
      var indexes := StepIndexes(steps);
      assert indexes[0] == StepIndex(steps[0]);
      assert indexes[1..] == StepIndexes(steps[1..]);
      HardenedIndex(env, k, steps[0], nonCompliant);
      var child := env.Derive(k, steps[0].index, steps[0].hardened, nonCompliant);
      if child.Ok? {
        assert Below(indexes[1..], MAX_INDEX);
        ChainIsDeriveAll(env, child.value, steps[1..], nonCompliant);
      }
    }
  }

  // A path with every index in range derives what the chain of its numeric steps derives; with an
  // index out of range it is refused before anything is derived.
  lemma PathIsChain<P(!new)>(env: Env<P>, k: HDPrivateKey, root: string, steps: seq<Step>, nonCompliant: bool)
    requires env.Valid() && root in ROOT_ALIASES
    ensures DeriveFromString(env, k, PathText(root, steps), nonCompliant) ==
            if Below(StepIndexes(steps), MAX_INDEX) then Chain(env, k, steps, nonCompliant) else Err(InvalidPathString)
  {
    ParsedPath(root, steps);
    if Below(StepIndexes(steps), MAX_INDEX) {
      ChainIsDeriveAll(env, k, steps, nonCompliant);
    }
  }

  lemma {:induction false} DeriveAllConcat<P(!new)>(env: Env<P>, k: HDPrivateKey, a: seq<nat>, b: seq<nat>,
                                                    nonCompliant: bool)
    requires env.Valid()
    ensures DeriveAll(env, k, a + b, nonCompliant) ==
            match DeriveAll(env, k, a, nonCompliant)
            case Err(e) => Err(e)
            case Ok(middle) => DeriveAll(env, middle, b, nonCompliant)
    decreases |a|
  {
    hide env.Valid, env.Derive;
    if a == [] {
      assert a + b == b;
    } else {
      assert (a + b)[1..] == a[1..] + b;
      var child := env.Derive(k, a[0], false, nonCompliant);
      if child.Ok? {
        DeriveAllConcat(env, child.value, a[1..], b, nonCompliant);
      }
    }
  }

  lemma StepIndexesConcat(a: seq<Step>, b: seq<Step>)
    ensures StepIndexes(a + b) == StepIndexes(a) + StepIndexes(b)
    ensures Below(StepIndexes(a + b), MAX_INDEX) <==>
            Below(StepIndexes(a), MAX_INDEX) && Below(StepIndexes(b), MAX_INDEX)
  {
    var x, y := StepIndexes(a), StepIndexes(b);
    assert StepIndexes(a + b) == x + y;
    if Below(x + y, MAX_INDEX) {
      assert forall i :: 0 <= i < |x| ==> x[i] == (x + y)[i];
      assert forall i :: 0 <= i < |y| ==> y[i] == (x + y)[|x| + i];
    }
  }

  // One path after another.
  function Composed<P(!new)>(env: Env<P>, k: HDPrivateKey, first: string, second: string, nonCompliant: bool)
    : Result<HDPrivateKey, Error>
    requires env.Valid()
  {
    match DeriveFromString(env, k, first, nonCompliant)
    case Err(e) => Err(e)
    case Ok(middle) => DeriveFromString(env, middle, second, nonCompliant)
  }

  // Following one path after another is following their concatenation.  An index out of range
  // makes both fail; the concatenation is then refused before anything is derived.
  lemma PathsCompose<P(!new)>(env: Env<P>, k: HDPrivateKey, root: string, a: seq<Step>, again: string, b: seq<Step>,
                              nonCompliant: bool)
    requires env.Valid() && root in ROOT_ALIASES && again in ROOT_ALIASES
    ensures var whole := DeriveFromString(env, k, PathText(root, a + b), nonCompliant);
            var composed := Composed(env, k, PathText(root, a), PathText(again, b), nonCompliant);
            if Below(StepIndexes(a), MAX_INDEX) && Below(StepIndexes(b), MAX_INDEX) then whole == composed
            else whole == Err(InvalidPathString) && composed.Err?
  {
    hide env.Valid, env.Derive, DerivationIndexes, PathText, StepIndexes, Below, DeriveAll, ROOT_ALIASES;
    ParsedPath(root, a);
    ParsedPath(again, b);
    ParsedPath(root, a + b);
    StepIndexesConcat(a, b);
    DeriveAllConcat(env, k, StepIndexes(a), StepIndexes(b), nonCompliant);
  }

  // ---------------------------------------------------------------- private and public paths

  // Every step of the private derivation stays below 2^31.
  predicate StaysNormal<P(!new)>(env: Env<P>, k: HDPrivateKey, indexes: seq<nat>)
    requires env.Valid()
    decreases |indexes|
  {
    indexes == [] ||
    (var child := env.Derive(k, indexes[0], false, false);
     child.Ok? && child.value.childIndex < HARDENED && StaysNormal(env, child.value, indexes[1..]))
  }

  // Along a whole path of indexes below 2^31 the two derivations form a commuting square, and
  // public derivation succeeds exactly when the private one never leaves these indexes.
  lemma {:induction false} PathsCommute<P(!new)>(env: Env<P>, k: HDPrivateKey, indexes: seq<nat>)
    requires env.Valid() && Below(indexes, HARDENED)
    ensures var public := DeriveAllPublic(env, env.Neuter(k), indexes);
            && (public.Ok? <==> StaysNormal(env, k, indexes))
            && (public.Ok? ==> DeriveAll(env, k, indexes, false).Ok?
                               && public.value == env.Neuter(DeriveAll(env, k, indexes, false).value))
            && (public.Err? ==> public.error == CantDeriveHardened)
    decreases |indexes|
  {
    hide env.Valid, env.Derive, env.DerivePublic, env.Neuter;
    if indexes != [] {
      env.DerivationsCommute(k, indexes[0], false);
      var child := env.Derive(k, indexes[0], false, false);
      if child.Ok? && child.value.childIndex < HARDENED {
        PathsCommute(env, child.value, indexes[1..]);
      }
    }
  }

  lemma {:induction false} JoinQuote(parts: seq<string>)
    requires |parts| >= 1
    ensures '\'' in Text.Join(parts, '/') <==> exists i :: 0 <= i < |parts| && '\'' in parts[i]
    decreases |parts|
  {
    if |parts| > 1 {
      var rest := parts[1..];
      JoinQuote(rest);
      if i :| 0 <= i < |rest| && '\'' in rest[i] {
        assert parts[i + 1] == rest[i];
      }
      if i :| 0 < i < |parts| && '\'' in parts[i] {
        assert rest[i - 1] == parts[i];
      }
    }
  }

  predicate HasHardened(steps: seq<Step>) {
    exists i :: 0 <= i < |steps| && steps[i].hardened
  }

  // A path has a quote exactly if a step is hardened or the name of its root has one.
  lemma PathQuote(root: string, steps: seq<Step>)
    ensures '\'' in PathText(root, steps) <==> '\'' in root || HasHardened(steps)
  {
    hide StepText, Text.Join;
    var parts := [root] + StepTexts(steps);
    JoinQuote(parts);
    forall i | 0 <= i < |steps|
      ensures '\'' in parts[i + 1] <==> steps[i].hardened
    {
      ParseStepText(steps[i]);
    }
    assert parts[0] == root;
    if i :| 0 < i < |parts| && '\'' in parts[i] {
      assert steps[i - 1].hardened by {
        assert '\'' in parts[(i - 1) + 1];
      }
    }
  }

  // The same for every path given as a text.  Public derivation refuses a quote first, also the one in
  // m' and M', which are names of the root to private derivation; then an index that is too large.
  lemma PathTextsCommute<P(!new)>(env: Env<P>, k: HDPrivateKey, root: string, steps: seq<Step>)
    requires env.Valid() && root in ROOT_ALIASES
    ensures var public := DerivePublicFromString(env, env.Neuter(k), PathText(root, steps));
            var private := DeriveFromString(env, k, PathText(root, steps), false);
            if '\'' in root || HasHardened(steps) then public == Err(CantDeriveHardened)
            else if !Below(StepIndexes(steps), HARDENED) then public == Err(InvalidPathString)
            else
              && (public.Ok? <==> StaysNormal(env, k, StepIndexes(steps)))
              && (public.Ok? ==> private.Ok? && public.value == env.Neuter(private.value))
              && (public.Err? ==> public.error == CantDeriveHardened)
  {
    hide env.Valid, env.Derive, env.DerivePublic, env.Neuter, StaysNormal, PathText, DerivationIndexes, HasHardened;
    hide ROOT_ALIASES;
    ParsedPath(root, steps);
    PathQuote(root, steps);
    if Below(StepIndexes(steps), HARDENED) {
      PathsCommute(env, k, StepIndexes(steps));
    }
  }

  // ---------------------------------------------------------------- the non-compliant variant

  // At every step the key needs 32 bytes, or the step is not hardened.
  predicate NeedsNoPadding<P(!new)>(env: Env<P>, k: HDPrivateKey, indexes: seq<nat>)
    requires env.Valid()
    decreases |indexes|
  {
    indexes == [] ||
    (var child := env.Derive(k, indexes[0], false, false);
     && (k.key >= Bytes.TWO248 || (child.Ok? && child.value.childIndex < HARDENED))
     && (child.Ok? ==> NeedsNoPadding(env, child.value, indexes[1..])))
  }

  // Along such a path the variant without padding derives the same keys.
  lemma {:induction false} NonCompliantAgrees<P(!new)>(env: Env<P>, k: HDPrivateKey, indexes: seq<nat>)
    requires env.Valid() && env.WellFormed(k) && NeedsNoPadding(env, k, indexes)
    ensures DeriveAll(env, k, indexes, true) == DeriveAll(env, k, indexes, false)
    decreases |indexes|
  {
    hide env.Valid, env.Derive;
    if indexes != [] {
      var child := env.Derive(k, indexes[0], false, false);
      env.DeriveWellFormed(k, indexes[0], false, false);
      if k.key >= Bytes.TWO248 {
        env.LargeKeyAgrees(k, indexes[0], false);
      } else {
        env.DeriveFindsFirst(k, indexes[0], false, false);
        env.NormalIndexAgrees(k, indexes[0]);
      }
      if child.Ok? {
        NonCompliantAgrees(env, child.value, indexes[1..]);
      }
    }
  }
}
