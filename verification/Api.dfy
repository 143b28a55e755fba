/** The objects the approver reads and writes: pkg/apis/policy/v1alpha1 and the fields of
    cert-manager's CertificateRequest that this repository uses. */
module Api {
  datatype Option<+T> = None | Some(value: T)

  datatype Result<+T> = Success(value: T) | Failure(error: string)

  const CONDITION_TRUE := "True"
  const CONDITION_FALSE := "False"
  const CONDITION_UNKNOWN := "Unknown"

  type Labels = map<string, string>

  // ----- CertificateRequestPolicy -----

  const READY := "Ready"

  datatype PolicyCondition = PolicyCondition(
    typ: string, status: string, lastTransitionTime: Option<int>,
    reason: string, message: string, observedGeneration: int)

  /** The key of a policy's list of conditions. */
  const POLICY_TYPE: PolicyCondition -> string := (c: PolicyCondition) => c.typ

  datatype Policy = Policy(name: string, generation: int, spec: PolicySpec, conditions: seq<PolicyCondition>)

  const POLICY_NAME: Policy -> string := (p: Policy) => p.name

  datatype PolicySpec = PolicySpec(
    allowed: Option<Allowed>, constraints: Option<Constraints>,
    plugins: map<string, map<string, string>>, selector: Selector)

  datatype Selector = Selector(issuerRef: Option<IssuerRefSelector>, namespace: Option<NamespaceSelector>)

  datatype IssuerRefSelector = IssuerRefSelector(name: Option<string>, kind: Option<string>, group: Option<string>)

  /** `matchLabels` is None for Go's nil map. */
  datatype NamespaceSelector = NamespaceSelector(matchNames: seq<string>, matchLabels: Option<Labels>)

  datatype ValidationRule = ValidationRule(rule: string, message: Option<string>)

  datatype AllowedString = AllowedString(
    value: Option<string>, required: Option<bool>, validations: seq<ValidationRule>)

  datatype AllowedStringSlice = AllowedStringSlice(
    values: Option<seq<string>>, required: Option<bool>, validations: seq<ValidationRule>)

  datatype AllowedSubject = AllowedSubject(
    organizations: Option<AllowedStringSlice>, countries: Option<AllowedStringSlice>,
    organizationalUnits: Option<AllowedStringSlice>, localities: Option<AllowedStringSlice>,
    provinces: Option<AllowedStringSlice>, streetAddresses: Option<AllowedStringSlice>,
    postalCodes: Option<AllowedStringSlice>, serialNumber: Option<AllowedString>)

  datatype Allowed = Allowed(
    commonName: Option<AllowedString>, dnsNames: Option<AllowedStringSlice>,
    ipAddresses: Option<AllowedStringSlice>, uris: Option<AllowedStringSlice>,
    emailAddresses: Option<AllowedStringSlice>, isCA: Option<bool>,
    usages: Option<seq<string>>, subject: Option<AllowedSubject>)

  datatype PrivateKeyConstraints = PrivateKeyConstraints(
    algorithm: Option<string>, minSize: Option<int>, maxSize: Option<int>)

  datatype Constraints = Constraints(
    minDuration: Option<int>, maxDuration: Option<int>, privateKey: Option<PrivateKeyConstraints>)

  // ----- CertificateRequest -----

  const APPROVED := "Approved"
  const DENIED := "Denied"

  datatype RequestCondition = RequestCondition(
    typ: string, status: string, lastTransitionTime: Option<int>, reason: string, message: string)

  /** The key of a request's list of conditions. */
  const REQUEST_TYPE: RequestCondition -> string := (c: RequestCondition) => c.typ

  datatype IssuerRef = IssuerRef(name: string, kind: string, group: string)

  /** The three pointer types decodePublicKey distinguishes, and every other type. */
  datatype PublicKey = Rsa(bitLen: nat) | Ecdsa(bitSize: nat) | Ed25519 | OtherKey

  datatype Subject = Subject(
    organization: seq<string>, country: seq<string>, organizationalUnit: seq<string>,
    locality: seq<string>, province: seq<string>, streetAddress: seq<string>,
    postalCode: seq<string>, serialNumber: string)

  /** A decoded signing request; addresses and URIs are in their string form. */
  datatype Csr = Csr(
    commonName: string, dnsNames: seq<string>, ipAddresses: seq<string>, uris: seq<string>,
    emailAddresses: seq<string>, subject: Subject, publicKey: PublicKey)

  /** `csr` is what decoding spec.request gives. */
  datatype Request = Request(
    namespace: string, name: string, username: string, issuerRef: IssuerRef,
    duration: Option<int>, isCA: bool, usages: seq<string>, csr: Result<Csr>,
    conditions: seq<RequestCondition>)

  /** Whether some condition of the type is True, as cert-manager's
      CertificateRequestIsApproved and CertificateRequestIsDenied test it. */
  predicate HasTrue(conditions: seq<RequestCondition>, typ: string) {
    exists i :: 0 <= i < |conditions| && conditions[i].typ == typ && conditions[i].status == CONDITION_TRUE
  }

  predicate Decided(conditions: seq<RequestCondition>) {
    HasTrue(conditions, APPROVED) || HasTrue(conditions, DENIED)
  }

  // ----- field errors -----

  datatype Part = Child(name: string) | Index(i: nat)

  type Path = seq<Part>

  datatype FieldError =
    | Required(path: Path)
    | Invalid(path: Path, detail: string)
    | NotSupported(path: Path, value: string)
    | InternalError(path: Path, error: string)

  /** How a list of field errors reads as one message. */
  type Render = seq<FieldError> -> string

  // ----- evaluators and webhooks -----

  /** What a webhook answers about a policy. */
  datatype WebhookResponse = WebhookResponse(allowed: bool, errors: seq<FieldError>, warnings: seq<string>)

  type Webhook = Policy -> Result<WebhookResponse>

  datatype EvaluationResponse = EvaluationResponse(denied: bool, message: string)

  /** An evaluator, as a function of the policy and the request. */
  type Evaluator = (Policy, Request) -> Result<EvaluationResponse>
}
