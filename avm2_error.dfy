/**
 * Error selection of the AVM2 runtime (core/src/avm2/error.rs).
 *
 * A thrown ActionScript error is an instance of one of the built-in error
 * classes carrying a message and a numeric code; an internal VM error is a
 * plain message that ActionScript code cannot catch.  Building the error
 * object runs the class constructor, which may itself fail: that failure is
 * passed in as `construction` and, when present, is what the helpers return.
 */
module Avm2Error {
  import opened Wrappers
  import opened Strings

  /** The built-in error classes the helpers instantiate. */
  datatype ErrorClass =
    | BaseError | TypeError | ReferenceError | ArgumentError | RangeError
    | IOError | EOFError | URIError | SyntaxError

  /** A constructed ActionScript error object: its class, message and code. */
  datatype ErrorValue = ErrorValue(errorClass: ErrorClass, message: string, code: nat)

  /** `Error::AvmError` is catchable by ActionScript; `Error::RustError` is not. */
  datatype Error = AvmError(value: ErrorValue) | RustError(message: string)

  predicate Catchable(e: Error)
  {
    e.AvmError?
  }

  /**
   * `error_constructor`: construct `errorClass` with the message and code;
   * `construction` is the failure the class constructor raised, if any.
   */
  function ErrorConstructor(errorClass: ErrorClass, message: string, code: nat, construction: Option<Error>)
    : (r: Result<ErrorValue, Error>)
    ensures construction.None? ==> r == Ok(ErrorValue(errorClass, message, code))
    ensures construction.Some? ==> r == Err(construction.value)
  {
    match construction
    case None => Ok(ErrorValue(errorClass, message, code))
    case Some(e) => Err(e)
  }

  /** The `match error { Ok(err) => AvmError(err), Err(err) => err }` that ends every helper. */
  function Raise(constructed: Result<ErrorValue, Error>): Error
  {
    match constructed
    case Ok(v) => AvmError(v)
    case Err(e) => e
  }

  /** `From<&str>` and `From<String>`: a message becomes an internal error. */
  function FromMessage(message: string): (e: Error)
    ensures !Catchable(e) && e.message == message
  {
    RustError(message)
  }

  // ---------------------------------------------------------------------
  // make_null_or_undefined_error

  const UndefinedMessage: string := "Error #1010:" + " A term is undefined and has no properties."
  const NullMessage: string := "Error #1009:" + " Cannot access a property or method of a null object reference."

  /** The " (accessing field: <name>)" suffix appended when a name is known. */
  function FieldSuffix(name: Option<string>): string
  {
    match name
    case None => ""
    case Some(n) => " (accessing field: " + n + ")"
  }

  /**
   * The TypeError raised for a property access on null or undefined.
   * `isUndefined` tells which of the two the accessed value was, and `name`
   * is the qualified name of the accessed field, when known.
   */
  function MakeNullOrUndefinedError(isUndefined: bool, name: Option<string>, construction: Option<Error>)
    : (e: Error)
    ensures construction.Some? ==> e == construction.value
    ensures construction.None? ==>
              e.AvmError? && e.value.errorClass == TypeError &&
              e.value.code == (if isUndefined then 1010 else 1009) &&
              StartsWith(e.value.message, if isUndefined then UndefinedMessage else NullMessage)
    ensures construction.None? && name.None? ==>
              e.value.message == (if isUndefined then UndefinedMessage else NullMessage)
    ensures construction.None? && name.Some? ==>
              EndsWith(e.value.message, " (accessing field: " + name.value + ")")
  {
    var base := if isUndefined then UndefinedMessage else NullMessage;
    var code := if isUndefined then 1010 else 1009;
    Raise(ErrorConstructor(TypeError, base + FieldSuffix(name), code, construction))
  }

  /** The field suffix is present exactly when a name was supplied. */
  lemma NullOrUndefinedSuffixIffName(isUndefined: bool, name: Option<string>)
    ensures var e := MakeNullOrUndefinedError(isUndefined, name, None);
            var base := if isUndefined then UndefinedMessage else NullMessage;
            (e.value.message == base <==> name.None?)
  {
    var e := MakeNullOrUndefinedError(isUndefined, name, None);
    var base := if isUndefined then UndefinedMessage else NullMessage;
    if name.Some? {
      assert |e.value.message| == |base| + |FieldSuffix(name)| > |base|;
    }
  }

  // ---------------------------------------------------------------------
  // make_reference_error

  datatype ReferenceErrorCode =
    | AssignToMethod | InvalidWrite | InvalidLookup | InvalidRead
    | WriteToReadOnly | ReadFromWriteOnly | InvalidDelete

  /** The enum discriminants of `ReferenceErrorCode`. */
  function Discriminant(c: ReferenceErrorCode): nat
  {
    match c
    case AssignToMethod => 1037
    case InvalidWrite => 1056
    case InvalidLookup => 1065
    case InvalidRead => 1069
    case WriteToReadOnly => 1074
    case ReadFromWriteOnly => 1077
    case InvalidDelete => 1120
  }

  /** The "Error #NNNN:" opening of each code's message, as written in the source. */
  function ReferenceTag(c: ReferenceErrorCode): string
  {
    match c
    case AssignToMethod => "Error #1037:"
    case InvalidWrite => "Error #1056:"
    case InvalidLookup => "Error #1065:"
    case InvalidRead => "Error #1069:"
    case WriteToReadOnly => "Error #1074:"
    case ReadFromWriteOnly => "Error #1077:"
    case InvalidDelete => "Error #1120:"
  }

  /** The rest of each code's message, with the accessed name and the class name filled in. */
  function ReferenceBody(c: ReferenceErrorCode, qualifiedName: string, className: string): string
  {
    match c
    case AssignToMethod => " Cannot assign to a method " + qualifiedName + " on " + className + "."
    case InvalidWrite => " Cannot create property " + qualifiedName + " on " + className + "."
    case InvalidLookup => " Variable " + qualifiedName + " is not defined."
    case InvalidRead => " Property " + qualifiedName + " not found on " + className + " and there is no default value."
    case WriteToReadOnly => " Illegal write to read-only property " + qualifiedName + " on " + className + "."
    case ReadFromWriteOnly => " Illegal read of write-only property " + qualifiedName + " on " + className + "."
    case InvalidDelete => " Cannot delete property " + qualifiedName + " on " + className + "."
  }

  function ReferenceMessage(c: ReferenceErrorCode, qualifiedName: string, className: string): string
  {
    ReferenceTag(c) + ReferenceBody(c, qualifiedName, className)
  }

  /**
   * The ReferenceError for `code`; `objectClass` is the name of the object's
   * class, or None when the object has no class.
   */
  function MakeReferenceError(code: ReferenceErrorCode, qualifiedName: string, objectClass: Option<string>,
                              construction: Option<Error>): (e: Error)
    ensures construction.Some? ==> e == construction.value
    ensures construction.None? ==>
              e.AvmError? && e.value.errorClass == ReferenceError && e.value.code == Discriminant(code)
  {
    var className := objectClass.GetOr("<UNKNOWN>");
    Raise(ErrorConstructor(ReferenceError, ReferenceMessage(code, qualifiedName, className), Discriminant(code), construction))
  }

  /** Every reference error message opens with "Error #" followed by the code it is raised with. */
  lemma ReferenceCodeMatchesMessage(code: ReferenceErrorCode, qualifiedName: string, objectClass: Option<string>)
    ensures var e := MakeReferenceError(code, qualifiedName, objectClass, None);
            StartsWith(e.value.message, "Error #" + Decimal(e.value.code) + ":")
  {
    var e := MakeReferenceError(code, qualifiedName, objectClass, None);
    TagMatchesDiscriminant(code);
    assert e.value.message == ReferenceTag(code) + ReferenceBody(code, qualifiedName, objectClass.GetOr("<UNKNOWN>"));
  }

  lemma TagMatchesDiscriminant(c: ReferenceErrorCode)
    ensures ReferenceTag(c) == "Error #" + Decimal(Discriminant(c)) + ":"
  {
    DecimalOfFourDigits(Discriminant(c));
    match c
    case AssignToMethod =>
    case InvalidWrite =>
    case InvalidLookup =>
    case InvalidRead =>
    case WriteToReadOnly =>
    case ReadFromWriteOnly =>
    case InvalidDelete =>
  }

  /** A four-digit number is rendered as its four digits. */
  lemma DecimalOfFourDigits(n: nat)
    requires 1000 <= n < 10000
    ensures Decimal(n) == [DigitChar(n / 1000), DigitChar(n / 100 % 10), DigitChar(n / 10 % 10), DigitChar(n % 10)]
  {
    assert n / 10 / 10 == n / 100 && n / 100 / 10 == n / 1000;
    assert Decimal(n) == Decimal(n / 10) + [DigitChar(n % 10)];
    assert Decimal(n / 10) == Decimal(n / 100) + [DigitChar(n / 10 % 10)];
    assert Decimal(n / 100) == Decimal(n / 1000) + [DigitChar(n / 100 % 10)];
  }

  // ---------------------------------------------------------------------
  // make_error_2008, invalid_socket_error and the E4X assignment errors

  /** "Parameter <name> must be one of the accepted values.", an ArgumentError. */
  function MakeError2008(paramName: string, construction: Option<Error>): (e: Error)
    ensures construction.Some? ==> e == construction.value
    ensures construction.None? ==>
              e.AvmError? && e.value.errorClass == ArgumentError && e.value.code == 2008 &&
              StartsWith(e.value.message, "Error #2008:" + " Parameter " + paramName)
  {
    Raise(ErrorConstructor(ArgumentError,
                           "Error #2008:" + " Parameter " + paramName + " must be one of the accepted values.",
                           2008, construction))
  }

  /** The IOError raised for an operation on a socket that is not open. */
  function InvalidSocketError(construction: Option<Error>): (e: Error)
    ensures construction.Some? ==> e == construction.value
    ensures construction.None? ==>
              e.AvmError? && e.value.errorClass == IOError && e.value.code == 2002 &&
              StartsWith(e.value.message, "Error #2002:")
  {
    Raise(ErrorConstructor(IOError, "Error #2002:" + " Operation attempted on invalid socket.", 2002, construction))
  }

  /**
   * `type_error(activation, message, code)?`: a TypeError whose construction
   * failure propagates in its place.
   */
  function MakeTypeError(message: string, code: nat, construction: Option<Error>): (e: Error)
    ensures construction.Some? ==> e == construction.value
    ensures construction.None? ==> e == AvmError(ErrorValue(TypeError, message, code))
  {
    Raise(ErrorConstructor(TypeError, message, code, construction))
  }

  /** Error 1086: `XMLList.name()` on a list that does not hold exactly one item. */
  function Error1086(): (e: Error)
    ensures e.AvmError? && e.value.errorClass == TypeError && e.value.code == 1086
  {
    AvmError(ErrorValue(TypeError, "Error #1086:" + " The name method only works on lists containing one item.", 1086))
  }

  /** Error 1087: assignment to an indexed XML property. */
  function Error1087(): (e: Error)
    ensures e.AvmError? && e.value.errorClass == TypeError && e.value.code == 1087
  {
    AvmError(ErrorValue(TypeError, "Error #1087:" + " Assignment to indexed XML is not allowed.", 1087))
  }

  /** Error 1089: assignment to an XMLList with more than one item. */
  function Error1089(): (e: Error)
    ensures e.AvmError? && e.value.errorClass == TypeError && e.value.code == 1089
  {
    AvmError(ErrorValue(TypeError, "Error #1089:" + " Assignment to lists with more than one item is not supported.", 1089))
  }

  /** A message opens with "Error #", the decimal code it is raised with, and a colon. */
  predicate CarriesCode(v: ErrorValue)
  {
    StartsWith(v.message, "Error #" + Decimal(v.code) + ":")
  }

  /** The socket error's message carries its code after "Error #". */
  lemma InvalidSocketErrorCarriesCode()
    ensures CarriesCode(InvalidSocketError(None).value)
  {
    DecimalOfFourDigits(2002);
  }

  /** Error 1086's message carries its code after "Error #". */
  lemma Error1086CarriesCode()
    ensures CarriesCode(Error1086().value)
  {
    DecimalOfFourDigits(1086);
  }

  /** Error 1087's message carries its code after "Error #". */
  lemma Error1087CarriesCode()
    ensures CarriesCode(Error1087().value)
  {
    DecimalOfFourDigits(1087);
  }

  /** Error 1089's message carries its code after "Error #". */
  lemma Error1089CarriesCode()
    ensures CarriesCode(Error1089().value)
  {
    DecimalOfFourDigits(1089);
  }

  /** Error 2008's message carries its code after "Error #". */
  lemma Error2008CarriesCode(paramName: string)
    ensures CarriesCode(MakeError2008(paramName, None).value)
  {
    DecimalOfFourDigits(2008);
  }
}
