/**
 Rules as the collector holds them. Every string that the program compares with is a constructor of its
 own; any other string is carried by the `Other…` or `Text` constructor.
 */
module RuleModel {
  import opened Wrappers

  /** Attributes of constraints and conditions; `Variable` is any attribute that starts with "variable". */
  datatype Attribute =
    | MessageType | Action | Support | ResultSet | Report | Priority | State | TriggeredBy
    | LoggingInformationAvailable | LogUploadOngoing | Transaction | Specification | Usage
    | CertificateType | FirmwareUpdateOngoing | Variable(suffix: string)
    | Value | Values | EvseId | EvseDotId | StartSchedule | MaxLength | Bytes | Type | Required | Optional
    | Case | JavaType | Format | Encoding | MinItems | MaxItems | Prefix | LeadingZeros | Implemented | MinLength
    | Status | WasProvidedIn | Default | DecimalPlaces | CharacterSet | Bit | RemoveField | Representation
    | Maximum | Configuration | ContentConfiguredBy | SendingDependsOn | WasStoredIn | CanVerification
    | SignedWith | OncePerTransaction | Minimum | ChargingProfilePurpose | Relevant | Unit | Currency
    | IncludedCertificateType  // certificateTypeIncludedInSignCertificateRequest
    | Provided | EqualAttribute | FirstEventAfterEVConnection | OtherAttribute(name: string)

  datatype Operator =
    | Equal | NotEqual | In | From | Gt | Ge | Max | Between | Either | Or | And | Custom | RequiredOperator
    | ProvidedOperator | OtherOperator(name: string)

  /** The appendix that a text names as the source of a value, if any. */
  datatype Appendix = NoAppendix | Components | Variables | SecurityEvents | DisplayPriorities

  /**
   What the program's tests say about a text: whether it starts with "agreed", is a spelling of UTF-8 or of
   "human readable" whatever its case, mentions something untestable, or names an appendix.
   */
  datatype Traits = Traits(startsAgreed: bool, utf8Name: bool, humanReadable: bool, untestable: bool, appendix: Appendix)

  /**
   Values: strings, and numbers as the one kind of value that is not a string. A `Text` carries the
   outcome of the string tests, whatever it is.
   */
  datatype Val =
    | True | False | CustomText | MaxLimit | Insensitive | Sensitive | Hexadecimal
    | Utf8 | DashedUtf8 | EmptyText | DateTimeType | DateTimeFormat | Base64 | Uri | Url | Decimal | NumberText
    | CurrencyVariable | MaxScheduleTuples | UnitsAppendix | ConnectionUsage
    | DurationLower | DurationUpper | DurationPhrase | DurationBound | Csms | MonitorValue
    | Text(text: string, traits: Traits)
    | Num(n: int)

  datatype Constraint = Constraint(attribute: Attribute, operator: Operator, values: seq<Val>)

  datatype Target =
    | CentralContractValidation  // context.centralContractValidation
    | CentralContractVariable    // variable.ISO15118Ctrlr.CentralContractValidationAllowed
    | FirstTransactionEvent      // context.isFirstTransactionEventAfterEVConnection
    | SignCertificateRequest     // context.SignCertificateRequest
    | Context
    | OtherTarget(name: string)

  datatype Condition = Condition(attribute: Attribute, target: Option<Target>, operator: Operator, values: seq<Val>)

  datatype Cause = Cause(name: string, sentence: string)

  datatype Rule = Rule(causes: seq<Cause>, conditions: Option<seq<Condition>>, constraint: Constraint)
}
