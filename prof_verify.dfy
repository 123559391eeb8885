/** POST /api/professor/face-registration/verify: compares a professor's live
    descriptor with their stored one after a variance check. */
module ProfVerify {
  import opened Common
  import opened Similarity

  const DescriptorLength: nat := 512
  const MinVariance: real := 0.001
  const MaxVariance: real := 10.0
  const SimilarityThreshold: real := 0.70

  const NotRecognizedMessage: string := "Face not recognized. Ensure you are the registered professor."
  const PartialMatchMessage: string := "Face partially matched. Please ensure good lighting and face the camera directly."
  const NoMatchMessage: string := "Face does not match registration. Please try again."

  /** What `JSON.parse` gives for a descriptor stored as text. */
  datatype Parsed = ParsedNull | ParsedDescriptor(d: Descriptor) | ParseError

  /** The `face_descriptor` column: JSON null, a JSON value, or text holding JSON. */
  datatype Stored = NullValue | DescriptorValue(d: Descriptor) | TextValue(parsed: Parsed)

  datatype Registration = Registration(
    professorId: string, firstName: string, lastName: string, faceDescriptor: Stored, isActive: bool)

  datatype Response =
    | MissingFields                                             // 400
    | RegistrationNotFound                                      // 404
    | NoDescriptorOnFile                                        // 400
    | InvalidFormat                                             // 400
    | SpoofSuspected                                            // 400
    | VerificationError                                         // 500
    | Verified(message: string, similarity: real)
    | NotVerified(message: string, similarity: real)

  // ------------------------------------------------------------ variance

  function Sum(xs: seq<real>): (s: real)
    ensures (forall i :: 0 <= i < |xs| ==> xs[i] >= 0.0) ==> s >= 0.0
    ensures |xs| == 1 ==> s == xs[0]
  {
    if xs == [] then 0.0 else Sum(xs[..|xs| - 1]) + xs[|xs| - 1]
  }

  function Mean(xs: seq<real>): (m: real)
    requires xs != []
    ensures m * |xs| as real == Sum(xs)
    ensures (forall i :: 0 <= i < |xs| ==> xs[i] >= 0.0) ==> m >= 0.0
  {
    Sum(xs) / |xs| as real
  }

  function SquaredDeviations(xs: seq<real>, m: real): (r: real)
    ensures r >= 0.0
  {
    if xs == [] then 0.0
    else
      var d := xs[|xs| - 1] - m;
      SquareNonNegative(d);
      SquaredDeviations(xs[..|xs| - 1], m) + d * d
  }

  lemma SquareNonNegative(d: real)
    ensures d * d >= 0.0
  {
    if d < 0.0 {
      assert d * d == (-d) * (-d);
    }
  }

  /** `calculateVariance`: the population variance (divided by n). */
  function Variance(xs: seq<real>): (v: real)
    requires xs != []
    ensures v >= 0.0
  {
    SquaredDeviations(xs, Mean(xs)) / |xs| as real
  }

  lemma {:induction false} SumConstant(xs: seq<real>, c: real)
    requires forall i :: 0 <= i < |xs| ==> xs[i] == c
    ensures Sum(xs) == |xs| as real * c
  {
    if xs != [] {
      SumConstant(xs[..|xs| - 1], c);
    }
  }

  lemma {:induction false} NoDeviationFromConstant(xs: seq<real>, c: real)
    requires forall i :: 0 <= i < |xs| ==> xs[i] == c
    ensures SquaredDeviations(xs, c) == 0.0
  {
    if xs != [] {
      NoDeviationFromConstant(xs[..|xs| - 1], c);
    }
  }

  /** A constant descriptor, such as one from a blank frame, has variance 0. */
  lemma ConstantHasNoVariance(xs: seq<real>, c: real)
    requires xs != [] && forall i :: 0 <= i < |xs| ==> xs[i] == c
    ensures Variance(xs) == 0.0
  {
    SumConstant(xs, c);
    assert Mean(xs) == c;
    NoDeviationFromConstant(xs, c);
  }

  /** The check rejects only values strictly outside [0.001, 10]. */
  predicate VarianceAccepted(v: real)
  {
    !(v < MinVariance || v > MaxVariance)
  }

  // ------------------------------------------------------------ the route

  /** The stored descriptor after `JSON.parse` of text; none when null. */
  function StoredDescriptor(s: Stored): (r: Option<Option<Descriptor>>)
    ensures r.None? <==> s.TextValue? && s.parsed.ParseError?
  {
    match s
    case NullValue => Some(None)
    case DescriptorValue(d) => Some(Some(d))
    case TextValue(ParsedNull) => Some(None)
    case TextValue(ParsedDescriptor(d)) => Some(Some(d))
    case TextValue(ParseError) => None
  }

  /** The feedback for a similarity below the threshold. */
  function RejectionMessage(similarity: real): (m: string)
    ensures similarity < 0.3 <==> m == NotRecognizedMessage
    ensures 0.5 <= similarity < SimilarityThreshold <==> m == PartialMatchMessage
    ensures (0.3 <= similarity < 0.5 || similarity >= SimilarityThreshold) <==> m == NoMatchMessage
  {
    if similarity < 0.3 then NotRecognizedMessage
    else if 0.5 <= similarity < SimilarityThreshold then PartialMatchMessage
    else NoMatchMessage
  }

  /** `.eq('professor_id', professorId).eq('is_active', true).single()`: the
      registration when exactly one active row has the id. */
  function Lookup(rows: seq<Registration>, professorId: string): (r: Option<Registration>)
    ensures r.Some? ==>
              r.value in rows && r.value.professorId == professorId && r.value.isActive &&
              forall g :: g in rows && g.professorId == professorId && g.isActive ==> g == r.value
    ensures (forall g :: g in rows ==> g.professorId != professorId || !g.isActive) ==> r.None?
    ensures forall i :: 0 <= i < |rows| && rows[i].professorId == professorId && rows[i].isActive &&
                        (forall j :: 0 <= j < |rows| && j != i ==> rows[j].professorId != professorId || !rows[j].isActive) ==>
              r == Some(rows[i])
  {
    var keep := (g: Registration) => g.professorId == professorId && g.isActive;
    SingleFilter(rows, keep);
    Single(Filter(rows, keep))
  }

  /** Both fields are present and a registration with a stored descriptor was found. */
  predicate Comparable(professorId: Option<string>, input: Option<Descriptor>, rows: seq<Registration>)
  {
    Truthy(professorId) && input.Some? && Lookup(rows, professorId.value).Some? &&
    StoredDescriptor(Lookup(rows, professorId.value).value.faceDescriptor).Some? &&
    StoredDescriptor(Lookup(rows, professorId.value).value.faceDescriptor).value.Some?
  }

  function StoredArray(professorId: Option<string>, input: Option<Descriptor>, rows: seq<Registration>): seq<real>
    requires Comparable(professorId, input, rows)
  {
    AsArray(StoredDescriptor(Lookup(rows, professorId.value).value.faceDescriptor).value.value)
  }

  /** One clause per exit of the handler, each an iff over the tests the
      route makes in order. */
  function VerifyOutcome(professorId: Option<string>, input: Option<Descriptor>, rows: seq<Registration>,
                         sqrt: real -> real): (r: Response)
    ensures r == MissingFields <==> !Truthy(professorId) || input.None?
    ensures r == RegistrationNotFound <==>
              Truthy(professorId) && input.Some? && Lookup(rows, professorId.value).None?
    ensures r == VerificationError <==>
              Truthy(professorId) && input.Some? && Lookup(rows, professorId.value).Some? &&
              StoredDescriptor(Lookup(rows, professorId.value).value.faceDescriptor).None?
    ensures r == NoDescriptorOnFile <==>
              Truthy(professorId) && input.Some? && Lookup(rows, professorId.value).Some? &&
              StoredDescriptor(Lookup(rows, professorId.value).value.faceDescriptor) == Some(None)
    ensures r == InvalidFormat <==>
              Comparable(professorId, input, rows) &&
              (|AsArray(input.value)| != DescriptorLength || |StoredArray(professorId, input, rows)| != DescriptorLength)
    ensures r == SpoofSuspected <==>
              Comparable(professorId, input, rows) &&
              |AsArray(input.value)| == DescriptorLength && |StoredArray(professorId, input, rows)| == DescriptorLength &&
              !VarianceAccepted(Variance(AsArray(input.value)))
    ensures r.Verified? || r.NotVerified? <==>
              Comparable(professorId, input, rows) &&
              |AsArray(input.value)| == DescriptorLength && |StoredArray(professorId, input, rows)| == DescriptorLength &&
              VarianceAccepted(Variance(AsArray(input.value)))
    ensures r.Verified? || r.NotVerified? ==>
              Comparable(professorId, input, rows) &&
              var similarity := Cosine(AsArray(input.value), StoredArray(professorId, input, rows), sqrt);
              r.similarity == similarity && (r.Verified? <==> similarity >= SimilarityThreshold)
    ensures r.Verified? ==> r.message == "Welcome back, " + Lookup(rows, professorId.value).value.firstName + "!"
    ensures r.NotVerified? ==> r.message == RejectionMessage(r.similarity)
  {
    if !Truthy(professorId) || input.None? then MissingFields
    else
      match Lookup(rows, professorId.value)
      case None => RegistrationNotFound
      case Some(reg) =>
        match StoredDescriptor(reg.faceDescriptor)
        case None => VerificationError
        case Some(None) => NoDescriptorOnFile
        case Some(Some(stored)) =>
          var a := AsArray(input.value);
          var b := AsArray(stored);
          if |a| != DescriptorLength || |b| != DescriptorLength then InvalidFormat
          else if !VarianceAccepted(Variance(a)) then SpoofSuspected
          else
            var similarity := Cosine(a, b, sqrt);
            if similarity >= SimilarityThreshold then Verified("Welcome back, " + reg.firstName + "!", similarity)
            else NotVerified(RejectionMessage(similarity), similarity)
  }

  /** A constant live descriptor of the right length is turned away before any comparison. */
  lemma ConstantInputRejected(professorId: string, c: real, rows: seq<Registration>, sqrt: real -> real)
    requires professorId != ""
    ensures var input := seq(DescriptorLength, _ => c);
            !VerifyOutcome(Some(professorId), Some(ArrayDescriptor(input)), rows, sqrt).Verified?
  {
    var input := seq(DescriptorLength, _ => c);
    ConstantHasNoVariance(input, c);
  }

  /** The variance bounds themselves pass. */
  lemma BoundsAccepted()
    ensures VarianceAccepted(MinVariance) && VarianceAccepted(MaxVariance)
    ensures !VarianceAccepted(0.0) && !VarianceAccepted(10.5)
  {
  }
}
