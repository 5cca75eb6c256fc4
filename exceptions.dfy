/** The exception classes of IniReaderExceptions.h as one closed set of kinds, the
    message each constructor composes, and the failures the parsers return in place
    of throwing. */
module IniExceptions {
  import opened IniText

  /** One kind per exception class. */
  datatype Kind =
    | IniReaderException
    | InvalidCastException
    | ItemException
    | KeyException
    | ValueException
    | SectionException

  /** The direct base class; `IniReaderException` derives from `std::exception` only. */
  function Parent(k: Kind): Option<Kind> {
    match k
    case IniReaderException => None
    case InvalidCastException => Some(IniReaderException)
    case ItemException => Some(IniReaderException)
    case KeyException => Some(ItemException)
    case ValueException => Some(ItemException)
    case SectionException => Some(IniReaderException)
  }

  /** Distance from the root of the hierarchy. */
  function Depth(k: Kind): nat {
    match k
    case IniReaderException => 0
    case KeyException | ValueException => 2
    case _ => 1
  }

  /** `k` is `a` or derives from it, so a `catch (const a&)` handler catches `k`. */
  predicate IsA(k: Kind, a: Kind)
    decreases Depth(k)
  {
    k == a || (Parent(k).Some? && IsA(Parent(k).value, a))
  }

  /** The text a message-taking constructor puts before `msg` when it forwards to
      its base (the base itself stores the message as given). */
  function OwnPrefix(k: Kind): string {
    match k
    case IniReaderException => ""
    case InvalidCastException => "InvalidCastException: "
    case ItemException => "ItemException: "
    case KeyException => "KeyException: "
    case ValueException => "ValueException: "
    case SectionException => "SectionException: "
  }

  /** The message `m_msg` holds after `k(msg)`: each constructor prefixes its own
      text and hands the result to its base's constructor, down to the base class. */
  function ComposedMessage(k: Kind, msg: string): string
    decreases Depth(k)
  {
    match Parent(k)
    case None => msg
    case Some(p) => ComposedMessage(p, OwnPrefix(k) + msg)
  }

  /** All prefixes along the chain from the root to `k`, outermost first. */
  function Prefix(k: Kind): string
    decreases Depth(k)
  {
    match Parent(k)
    case None => ""
    case Some(p) => Prefix(p) + OwnPrefix(k)
  }

  const UnknownError := "Unknown Error"

  /** An exception object: its dynamic class and the stored message. */
  datatype Exception = Exception(kind: Kind, message: string)

  /** `k(msg)`. */
  function Raise(k: Kind, msg: string): Exception {
    Exception(k, ComposedMessage(k, msg))
  }

  /** `k()`: every default constructor forwards to the base's default constructor,
      which leaves the member initialiser in place. */
  function RaiseDefault(k: Kind): Exception {
    Exception(k, UnknownError)
  }

  /** `what()`. */
  function What(e: Exception): string { e.message }

  /** How the parsers fail: an exception of the hierarchy above, one of the standard
      exceptions the code throws or lets escape, or the empty-value case the source
      leaves undefined. */
  datatype Failure =
    | Raised(error: Exception)
      /** `std::invalid_argument(message)`. */
    | InvalidArgument(message: string)
      /** `std::out_of_range`, from `substr` past the end or from `unordered_map::at`. */
    | OutOfRange
      /** `value.front()` on an empty value: undefined behaviour in the source, an
          explicit failure here. */
    | EmptyValue

  datatype Result<T> = Ok(value: T) | Err(failure: Failure)

  datatype Outcome = Pass | Fail(failure: Failure)

  /** The stored message is the chain of prefixes followed by the argument. */
  lemma {:induction false} ComposedIsPrefixed(k: Kind, msg: string)
    decreases Depth(k)
    ensures ComposedMessage(k, msg) == Prefix(k) + msg
  {
    match Parent(k)
    case None =>
    case Some(p) =>
      ComposedIsPrefixed(p, OwnPrefix(k) + msg);
      assert Prefix(p) + (OwnPrefix(k) + msg) == Prefix(p) + OwnPrefix(k) + msg;
  }

  /** The message of each class spelled out, and the default-constructed objects,
      which carry no prefix at all. */
  lemma Messages(msg: string)
    ensures What(Raise(IniReaderException, msg)) == msg
    ensures What(Raise(InvalidCastException, msg)) == "InvalidCastException: " + msg
    ensures What(Raise(ItemException, msg)) == "ItemException: " + msg
    ensures What(Raise(SectionException, msg)) == "SectionException: " + msg
    ensures What(Raise(KeyException, msg)) == "ItemException: KeyException: " + msg
    ensures What(Raise(ValueException, msg)) == "ItemException: ValueException: " + msg
    ensures forall k :: What(RaiseDefault(k)) == "Unknown Error"
  {
    ComposedIsPrefixed(IniReaderException, msg);
    ComposedIsPrefixed(InvalidCastException, msg);
    ComposedIsPrefixed(ItemException, msg);
    ComposedIsPrefixed(SectionException, msg);
    ComposedIsPrefixed(KeyException, msg);
    ComposedIsPrefixed(ValueException, msg);
  }

  /** The class hierarchy: `KeyException` and `ValueException` are `ItemException`s,
      every kind is an `IniReaderException`, and nothing else is related. */
  lemma Hierarchy()
    ensures forall k :: IsA(k, IniReaderException)
    ensures forall k :: IsA(k, ItemException) <==> k in {ItemException, KeyException, ValueException}
    ensures forall k :: IsA(k, InvalidCastException) <==> k == InvalidCastException
    ensures forall k :: IsA(k, SectionException) <==> k == SectionException
    ensures forall k, a :: IsA(k, a) && IsA(a, k) ==> k == a
  {
  }

  /** A handler for a base class sees its own prefix at the front of the message of
      every class derived from it. */
  lemma {:induction false} PrefixFollowsHierarchy(k: Kind, a: Kind)
    requires IsA(k, a)
    decreases Depth(k)
    ensures Prefix(a) <= Prefix(k)
  {
    if k != a {
      var p := Parent(k).value;
      PrefixFollowsHierarchy(p, a);
    }
  }
}
