/** The `constraints` approver: pkg/internal/approver/constraints, the evaluation of a request and
    the admission of a policy, and how the two agree.  Durations and sizes are compared only. */
module ConstraintsApprover {
  import opened Api

  const RSA := "RSA"
  const ECDSA := "ECDSA"
  const ED25519 := "Ed25519"
  const MAX_KEY_SIZE := 8192

  const SPEC_CONSTRAINTS: Path := [Child("spec"), Child("constraints")]

  function At(name: string): Path {
    SPEC_CONSTRAINTS + [Child(name)]
  }

  function AtKey(name: string): Path {
    SPEC_CONSTRAINTS + [Child("privateKey"), Child(name)]
  }

  datatype KeyShape = KeyShape(algorithm: string, size: int)

  function DecodePublicKey(key: PublicKey): Result<KeyShape> {
    match key
    case Rsa(bits) => Success(KeyShape(RSA, bits))
    case Ecdsa(bits) => Success(KeyShape(ECDSA, bits))
    case Ed25519 => Success(KeyShape(ED25519, -1))
    case OtherKey => Failure("unrecognised public key type")
  }

  // ----- specification of evaluation -----

  function InvalidIf(c: bool, path: Path, detail: string): seq<FieldError> {
    if c then [Invalid(path, detail)] else []
  }

  predicate TooLong(c: Constraints, duration: Option<int>) {
    c.maxDuration.Some? && (duration.None? || c.maxDuration.value < duration.value)
  }

  predicate TooShort(c: Constraints, duration: Option<int>) {
    c.minDuration.Some? && (duration.None? || c.minDuration.value > duration.value)
  }

  function DurationErrors(c: Constraints, duration: Option<int>): seq<FieldError> {
    InvalidIf(TooLong(c, duration), At("maxDuration"), "") + InvalidIf(TooShort(c, duration), At("minDuration"), "")
  }

  function KeyErrors(k: PrivateKeyConstraints, key: KeyShape): seq<FieldError> {
    InvalidIf(k.algorithm.Some? && k.algorithm.value != key.algorithm, AtKey("algorithm"), "")
    + InvalidIf(k.maxSize.Some? && k.maxSize.value < key.size, AtKey("maxSize"), "")
    + InvalidIf(k.minSize.Some? && k.minSize.value > key.size, AtKey("minSize"), "")
  }

  function KeyOf(cr: Request): Result<KeyShape> {
    match cr.csr
    case Failure(e) => Failure(e)
    case Success(csr) => DecodePublicKey(csr.publicKey)
  }

  function Respond(el: seq<FieldError>, render: Render): EvaluationResponse {
    if |el| > 0 then EvaluationResponse(true, render(el)) else EvaluationResponse(false, "")
  }

  function Evaluation(render: Render): Evaluator {
    (p: Policy, cr: Request) =>
      if p.spec.constraints.None? then Success(EvaluationResponse(false, ""))
      else
        var c := p.spec.constraints.value;
        var el := DurationErrors(c, cr.duration);
        if c.privateKey.None? then Success(Respond(el, render))
        else
          match KeyOf(cr)
          case Failure(e) => Failure(e)
          case Success(key) => Success(Respond(el + KeyErrors(c.privateKey.value, key), render))
  }

  method Evaluate(render: Render, policy: Policy, cr: Request) returns (r: Result<EvaluationResponse>)
    ensures r == Evaluation(render)(policy, cr)
  {
    if policy.spec.constraints.None? {
      return Success(EvaluationResponse(false, ""));
    }
    var consts := policy.spec.constraints.value;
    var el := EvaluateDuration(consts, cr.duration);
    if consts.privateKey.Some? {
      if cr.csr.Failure? {
        return Failure(cr.csr.error);
      }
      var decoded := DecodePublicKey(cr.csr.value.publicKey);
      if decoded.Failure? {
        return Failure(decoded.error);
      }
      var more := EvaluateKey(consts.privateKey.value, decoded.value);
      el := el + more;
    }
    if |el| > 0 {
      return Success(EvaluationResponse(true, render(el)));
    }
    r := Success(EvaluationResponse(false, ""));
  }

  /** The part of Evaluate about the duration. */
  method EvaluateDuration(consts: Constraints, duration: Option<int>) returns (el: seq<FieldError>)
    ensures el == DurationErrors(consts, duration)
  {
    el := [];
    if consts.maxDuration.Some? {
      if duration.None? {
        el := el + [Invalid(At("maxDuration"), "")];
      } else if consts.maxDuration.value < duration.value {
        el := el + [Invalid(At("maxDuration"), "")];
      }
    }
    if consts.minDuration.Some? {
      if duration.None? {
        el := el + [Invalid(At("minDuration"), "")];
      } else if consts.minDuration.value > duration.value {
        el := el + [Invalid(At("minDuration"), "")];
      }
    }
  }

  /** The part of Evaluate about the private key. */
  method EvaluateKey(k: PrivateKeyConstraints, key: KeyShape) returns (el: seq<FieldError>)
    ensures el == KeyErrors(k, key)
  {
    el := [];
    if k.algorithm.Some? && k.algorithm.value != key.algorithm {
      el := el + [Invalid(AtKey("algorithm"), "")];
    }
    if k.maxSize.Some? && k.maxSize.value < key.size {
      el := el + [Invalid(AtKey("maxSize"), "")];
    }
    if k.minSize.Some? && k.minSize.value > key.size {
      el := el + [Invalid(AtKey("minSize"), "")];
    }
  }

  // ----- admission -----

  predicate OutOfBounds(size: Option<int>) {
    size.Some? && (size.value < 0 || size.value > MAX_KEY_SIZE)
  }

  predicate MaxBelowMin(max: Option<int>, min: Option<int>) {
    max.Some? && min.Some? && max.value < min.value
  }

  method Validate(policy: Policy) returns (response: WebhookResponse)
    ensures response.warnings == []
    ensures response.allowed <==> response.errors == []
    ensures response.allowed <==> (policy.spec.constraints.Some? ==> Admissible(policy.spec.constraints.value))
    ensures response.allowed <==>
              policy.spec.constraints.Some? ==>
                var c := policy.spec.constraints.value;
                && (c.maxDuration.Some? ==> c.maxDuration.value >= 0)
                && (c.minDuration.Some? ==> c.minDuration.value >= 0)
                && (c.maxDuration.Some? && c.minDuration.Some? ==> c.minDuration.value <= c.maxDuration.value)
                && (c.privateKey.Some? ==>
                      var k := c.privateKey.value;
                      && (k.algorithm.Some? ==> k.algorithm.value in ["RSA", "ECDSA", "Ed25519"])
                      && (k.algorithm == Some("Ed25519") ==> k.maxSize.None? && k.minSize.None?)
                      && (k.maxSize.Some? ==> 0 <= k.maxSize.value <= 8192)
                      && (k.minSize.Some? ==> 0 <= k.minSize.value <= 8192)
                      && (k.maxSize.Some? && k.minSize.Some? ==> k.minSize.value <= k.maxSize.value))
    ensures policy.spec.constraints.Some? ==>
              var c := policy.spec.constraints.value;
              && (Invalid(At("maxDuration"), "max below min") in response.errors <==>
                   MaxBelowMin(c.maxDuration, c.minDuration))
              && (Invalid(AtKey("maxSize"), "max below min") in response.errors <==>
                    c.privateKey.Some? && MaxBelowMin(c.privateKey.value.maxSize, c.privateKey.value.minSize))
  {
    if policy.spec.constraints.None? {
      return WebhookResponse(true, [], []);
    }
    var el := [];
    var consts := policy.spec.constraints.value;
    if consts.privateKey.Some? {
      el := ValidateKey(consts.privateKey.value);
    }
    if MaxBelowMin(consts.maxDuration, consts.minDuration) {
      el := el + [Invalid(At("maxDuration"), "max below min")];
    }
    if consts.maxDuration.Some? && consts.maxDuration.value < 0 {
      el := el + [Invalid(At("maxDuration"), "negative")];
    }
    if consts.minDuration.Some? && consts.minDuration.value < 0 {
      el := el + [Invalid(At("minDuration"), "negative")];
    }
    response := WebhookResponse(|el| == 0, el, []);
  }

  /** The part of Validate about the private key. */
  method ValidateKey(k: PrivateKeyConstraints) returns (el: seq<FieldError>)
    ensures el == [] <==> AdmissibleKey(k)
    ensures Invalid(AtKey("maxSize"), "max below min") in el <==> MaxBelowMin(k.maxSize, k.minSize)
    ensures Invalid(At("maxDuration"), "max below min") !in el
  {
    el := [];
    if k.algorithm.Some? {
      if k.algorithm.value !in [RSA, ECDSA, ED25519] {
        el := el + [NotSupported(AtKey("algorithm"), k.algorithm.value)];
      }
      if k.algorithm.value == ED25519 {
        if k.maxSize.Some? {
          el := el + [Invalid(AtKey("maxSize"), "with Ed25519")];
        }
        if k.minSize.Some? {
          el := el + [Invalid(AtKey("minSize"), "with Ed25519")];
        }
      }
    }
    if OutOfBounds(k.maxSize) {
      el := el + [Invalid(AtKey("maxSize"), "bounds")];
    }
    if OutOfBounds(k.minSize) {
      el := el + [Invalid(AtKey("minSize"), "bounds")];
    }
    if MaxBelowMin(k.maxSize, k.minSize) {
      el := el + [Invalid(AtKey("maxSize"), "max below min")];
    }
  }

  /** The constraints that admission lets through. */
  predicate Admissible(c: Constraints) {
    && (c.privateKey.Some? ==> AdmissibleKey(c.privateKey.value))
    && !MaxBelowMin(c.maxDuration, c.minDuration)
    && (c.maxDuration.Some? ==> 0 <= c.maxDuration.value)
    && (c.minDuration.Some? ==> 0 <= c.minDuration.value)
  }

  predicate AdmissibleKey(k: PrivateKeyConstraints) {
    && (k.algorithm.Some? ==> k.algorithm.value in [RSA, ECDSA, ED25519])
    && (k.algorithm == Some(ED25519) ==> k.maxSize.None? && k.minSize.None?)
    && !OutOfBounds(k.maxSize) && !OutOfBounds(k.minSize)
    && !MaxBelowMin(k.maxSize, k.minSize)
  }

  // ----- agreement of the two -----

  ghost predicate Satisfies(render: Render, p: Policy, cr: Request) {
    var r := Evaluation(render)(p, cr);
    r.Success? && !r.value.denied
  }

  /** A key within the constraints: of the named algorithm, with a size between the bounds. */
  predicate Fits(k: PrivateKeyConstraints, key: KeyShape) {
    && (k.algorithm.Some? ==> key.algorithm == k.algorithm.value)
    && (k.minSize.Some? ==> k.minSize.value <= key.size)
    && (k.maxSize.Some? ==> key.size <= k.maxSize.value)
  }

  /** A duration within the constraints; a bound demands that there is one. */
  predicate Lasts(c: Constraints, duration: Option<int>) {
    && (c.minDuration.Some? ==> duration.Some? && c.minDuration.value <= duration.value)
    && (c.maxDuration.Some? ==> duration.Some? && duration.value <= c.maxDuration.value)
  }

  /** Denied with the rendered errors, if there are any. */
  predicate Answered(r: Result<EvaluationResponse>, render: Render, el: seq<FieldError>) {
    r == Success(if el == [] then EvaluationResponse(false, "") else EvaluationResponse(true, render(el)))
  }

  /** How the evaluator answers: with the errors of the duration and then of the key, as it was
      decoded, unless there is no key to decode. */
  lemma EvaluationSays(render: Render, p: Policy, cr: Request)
    requires p.spec.constraints.Some?
    ensures var c := p.spec.constraints.value;
            var r := Evaluation(render)(p, cr);
            var el := DurationErrors(c, cr.duration);
            match c.privateKey
            case None => Answered(r, render, el)
            case Some(k) =>
              if cr.csr.Failure? then r == Failure(cr.csr.error)
              else
                match cr.csr.value.publicKey
                case Rsa(bits) => Answered(r, render, el + KeyErrors(k, KeyShape("RSA", bits)))
                case Ecdsa(bits) => Answered(r, render, el + KeyErrors(k, KeyShape("ECDSA", bits)))
                case Ed25519 => Answered(r, render, el + KeyErrors(k, KeyShape("Ed25519", -1)))
                case OtherKey => r.Failure?
  {
  }

  /** Which errors those are: a bound on the duration is broken also when there is no duration. */
  lemma DurationErrorsAre(c: Constraints, duration: Option<int>, e: FieldError)
    ensures e in DurationErrors(c, duration) <==>
            || (&& c.maxDuration.Some? && (duration.None? || duration.value > c.maxDuration.value)
                && e == Invalid([Child("spec"), Child("constraints"), Child("maxDuration")], ""))
            || (&& c.minDuration.Some? && (duration.None? || duration.value < c.minDuration.value)
                && e == Invalid([Child("spec"), Child("constraints"), Child("minDuration")], ""))
  {
    assert At("maxDuration") == [Child("spec"), Child("constraints"), Child("maxDuration")];
    assert At("minDuration") == [Child("spec"), Child("constraints"), Child("minDuration")];
  }

  lemma KeyErrorsAre(k: PrivateKeyConstraints, key: KeyShape, e: FieldError)
    ensures var at := [Child("spec"), Child("constraints"), Child("privateKey")];
            e in KeyErrors(k, key) <==>
            || (k.algorithm.Some? && key.algorithm != k.algorithm.value && e == Invalid(at + [Child("algorithm")], ""))
            || (k.maxSize.Some? && key.size > k.maxSize.value && e == Invalid(at + [Child("maxSize")], ""))
            || (k.minSize.Some? && key.size < k.minSize.value && e == Invalid(at + [Child("minSize")], ""))
  {
    var at := [Child("spec"), Child("constraints"), Child("privateKey")];
    forall name ensures AtKey(name) == at + [Child(name)] {
    }
    InvalidIfIs(k.algorithm.Some? && k.algorithm.value != key.algorithm, AtKey("algorithm"), e);
    InvalidIfIs(k.maxSize.Some? && k.maxSize.value < key.size, AtKey("maxSize"), e);
    InvalidIfIs(k.minSize.Some? && k.minSize.value > key.size, AtKey("minSize"), e);
  }

  lemma InvalidIfIs(c: bool, path: Path, e: FieldError)
    ensures e in InvalidIf(c, path, "") <==> c && e == Invalid(path, "")
  {
  }

  lemma NoErrorsIffFits(k: PrivateKeyConstraints, key: KeyShape)
    ensures KeyErrors(k, key) == [] <==> Fits(k, key)
  {
  }

  /** A request passes exactly when its duration is within bounds and, where the policy constrains
      keys, its key can be decoded and is within bounds. */
  lemma SatisfiesIs(render: Render, p: Policy, cr: Request)
    ensures Satisfies(render, p, cr) <==>
            p.spec.constraints.Some? ==>
              var c := p.spec.constraints.value;
              && Lasts(c, cr.duration)
              && (c.privateKey.Some? ==> KeyOf(cr).Success? && Fits(c.privateKey.value, KeyOf(cr).value))
  {
    if p.spec.constraints.Some? && p.spec.constraints.value.privateKey.Some? && KeyOf(cr).Success? {
      NoErrorsIffFits(p.spec.constraints.value.privateKey.value, KeyOf(cr).value);
    }
  }

  /** Some key passes the key constraints: they name no unknown algorithm and no empty size range.
      Ed25519 keys have size -1, every other key a size that is not negative. */
  predicate Feasible(k: PrivateKeyConstraints) {
    if k.algorithm == Some(ED25519) then
      (k.maxSize.Some? ==> k.maxSize.value >= -1) && (k.minSize.Some? ==> k.minSize.value <= -1)
    else
      && (k.algorithm.Some? ==> k.algorithm.value in [RSA, ECDSA])
      && (k.maxSize.Some? ==> k.maxSize.value >= if k.algorithm.None? then -1 else 0)
      && !MaxBelowMin(k.maxSize, k.minSize)
  }

  /** The key the proof exhibits: of the named algorithm, as small as the minimum lets it be. */
  function Witness(k: PrivateKeyConstraints): PublicKey {
    var size := if k.minSize.Some? && k.minSize.value > 0 then k.minSize.value else 0;
    if k.algorithm == Some(ED25519) || (k.algorithm.None? && k.maxSize == Some(-1)) then Ed25519
    else if k.algorithm == Some(ECDSA) then Ecdsa(size)
    else Rsa(size)
  }

  function With(cr: Request, duration: Option<int>, key: PublicKey): Request {
    cr.(duration := duration, csr := Success(Csr("", [], [], [], [], Subject([], [], [], [], [], [], [], ""), key)))
  }

  /** A constraints block can be satisfied by some duration and key exactly when its duration
      range is not empty and its key constraints are feasible. */
  lemma SatisfiableIff(render: Render, p: Policy, cr: Request)
    requires p.spec.constraints.Some?
    ensures var c := p.spec.constraints.value;
            (exists duration, key :: Satisfies(render, p, With(cr, duration, key))) <==>
            && !MaxBelowMin(c.maxDuration, c.minDuration)
            && (c.privateKey.Some? ==> Feasible(c.privateKey.value))
  {
    var c := p.spec.constraints.value;
    if duration, key :| Satisfies(render, p, With(cr, duration, key)) {
      SatisfiesIs(render, p, With(cr, duration, key));
      if c.privateKey.Some? {
        FittingKeyFeasible(c.privateKey.value, key);
      }
    }
    if !MaxBelowMin(c.maxDuration, c.minDuration) && (c.privateKey.Some? ==> Feasible(c.privateKey.value)) {
      var duration := if c.minDuration.Some? then c.minDuration else c.maxDuration;
      var key := if c.privateKey.Some? then Witness(c.privateKey.value) else Rsa(0);
      if c.privateKey.Some? {
        WitnessFits(c.privateKey.value);
      }
      SatisfiesIs(render, p, With(cr, duration, key));
      assert Satisfies(render, p, With(cr, duration, key));
    }
  }

  lemma WitnessFits(k: PrivateKeyConstraints)
    requires Feasible(k)
    ensures DecodePublicKey(Witness(k)).Success? && Fits(k, DecodePublicKey(Witness(k)).value)
  {
  }

  lemma FittingKeyFeasible(k: PrivateKeyConstraints, key: PublicKey)
    requires DecodePublicKey(key).Success? && Fits(k, DecodePublicKey(key).value)
    ensures Feasible(k)
  {
  }

  /** Every block that admission lets through is satisfied by some duration and key. */
  lemma AdmissibleIsSatisfiable(render: Render, p: Policy, cr: Request)
    requires p.spec.constraints.Some? && Admissible(p.spec.constraints.value)
    ensures exists duration, key :: Satisfies(render, p, With(cr, duration, key))
  {
    SatisfiableIff(render, p, cr);
  }

  // ----- keys on given curves -----

  /** Go's parser knows the elliptic curves P-224, P-256, P-384 and P-521. */
  const CURVE_SIZES: seq<nat> := [224, 256, 384, 521]

  /** An elliptic-curve key lies on one of the curves. */
  predicate OnCurve(key: PublicKey, sizes: seq<nat>) {
    key.Ecdsa? ==> key.bitSize in sizes
  }

  /** Where an ECDSA key is demanded, the size range must contain the size of a curve. */
  predicate FeasibleOn(k: PrivateKeyConstraints, sizes: seq<nat>) {
    if k.algorithm == Some(ECDSA) then exists size :: size in sizes && Fits(k, KeyShape(ECDSA, size))
    else Feasible(k)
  }

  /** Whatever the curves are, a block can be satisfied by a duration and a key on one of them
      exactly when its duration range is not empty and its key constraints are feasible on them. */
  lemma SatisfiableOnCurvesIff(render: Render, p: Policy, cr: Request, sizes: seq<nat>)
    requires p.spec.constraints.Some?
    ensures var c := p.spec.constraints.value;
            (exists duration, key :: OnCurve(key, sizes) && Satisfies(render, p, With(cr, duration, key))) <==>
            && !MaxBelowMin(c.maxDuration, c.minDuration)
            && (c.privateKey.Some? ==> FeasibleOn(c.privateKey.value, sizes))
  {
    var c := p.spec.constraints.value;
    if duration, key :| OnCurve(key, sizes) && Satisfies(render, p, With(cr, duration, key)) {
      SatisfiesIs(render, p, With(cr, duration, key));
      if c.privateKey.Some? {
        FittingKeyFeasible(c.privateKey.value, key);
      }
    }
    if !MaxBelowMin(c.maxDuration, c.minDuration) && (c.privateKey.Some? ==> FeasibleOn(c.privateKey.value, sizes)) {
      var duration := if c.minDuration.Some? then c.minDuration else c.maxDuration;
      var key := Rsa(0);
      if c.privateKey.Some? {
        key := WitnessOn(c.privateKey.value, sizes);
      }
      SatisfiesIs(render, p, With(cr, duration, key));
      assert OnCurve(key, sizes) && Satisfies(render, p, With(cr, duration, key));
    }
  }

  lemma WitnessOn(k: PrivateKeyConstraints, sizes: seq<nat>) returns (key: PublicKey)
    requires FeasibleOn(k, sizes)
    ensures OnCurve(key, sizes) && DecodePublicKey(key).Success? && Fits(k, DecodePublicKey(key).value)
  {
    if k.algorithm == Some(ECDSA) {
      var size :| size in sizes && Fits(k, KeyShape(ECDSA, size));
      key := Ecdsa(size);
    } else {
      WitnessFits(k);
      key := Witness(k);
    }
  }

  /** Admission does not look at curves: an ECDSA range between two of them is let through, and
      no key on a curve ever satisfies it. */
  lemma AdmittedBetweenCurves(render: Render, p: Policy, cr: Request)
    requires p.spec.constraints ==
             Some(Constraints(None, None, Some(PrivateKeyConstraints(Some(ECDSA), Some(300), Some(350)))))
    ensures Admissible(p.spec.constraints.value)
    ensures !exists duration, key :: OnCurve(key, CURVE_SIZES) && Satisfies(render, p, With(cr, duration, key))
  {
    SatisfiableOnCurvesIff(render, p, cr, CURVE_SIZES);
  }

  /** A block whose maximum lies below its minimum passes no request at all. */
  lemma MaxBelowMinPassesNothing(render: Render, p: Policy, cr: Request)
    requires p.spec.constraints.Some?
    requires var c := p.spec.constraints.value;
             || MaxBelowMin(c.maxDuration, c.minDuration)
             || (c.privateKey.Some? && MaxBelowMin(c.privateKey.value.maxSize, c.privateKey.value.minSize))
    ensures !Satisfies(render, p, cr)
  {
    SatisfiesIs(render, p, cr);
  }
}
