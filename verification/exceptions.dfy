/** The Java exception classes the core throws or catches, with their
    superclass links, so that `instanceof` tests can be stated exactly. */
module Exceptions {
  import opened Wrappers

  datatype Class =
    | ExceptionClass
    | IOExceptionClass
    | ConnectionClosedClass      // org.apache.http.ConnectionClosedException
    | SocketClass
    | ConnectClass               // java.net.ConnectException
    | HttpHostConnectClass       // org.apache.http.conn.HttpHostConnectException
    | InterruptedIOClass         // java.io.InterruptedIOException
    | SocketTimeoutClass
    | ConnectTimeoutClass        // org.apache.http.conn.ConnectTimeoutException
    | UnknownHostClass
    | ClientProtocolClass
    | HttpResponseClass          // org.apache.http.client.HttpResponseException
    | RuntimeClass
    | IllegalStateClass
    | IllegalArgumentClass
    | NumberFormatClass
    | IndexOutOfBoundsClass
    | NoSuchElementClass
    | NullPointerClass
    | CancellationClass

  /** The direct superclass; `Exception` is the root of this hierarchy. */
  function Superclass(c: Class): Option<Class> {
    match c
    case ExceptionClass => None
    case IOExceptionClass => Some(ExceptionClass)
    case ConnectionClosedClass => Some(IOExceptionClass)
    case SocketClass => Some(IOExceptionClass)
    case ConnectClass => Some(SocketClass)
    case HttpHostConnectClass => Some(ConnectClass)
    case InterruptedIOClass => Some(IOExceptionClass)
    case SocketTimeoutClass => Some(InterruptedIOClass)
    case ConnectTimeoutClass => Some(InterruptedIOClass)
    case UnknownHostClass => Some(IOExceptionClass)
    case ClientProtocolClass => Some(IOExceptionClass)
    case HttpResponseClass => Some(ClientProtocolClass)
    case RuntimeClass => Some(ExceptionClass)
    case IllegalStateClass => Some(RuntimeClass)
    case IllegalArgumentClass => Some(RuntimeClass)
    case NumberFormatClass => Some(IllegalArgumentClass)
    case IndexOutOfBoundsClass => Some(RuntimeClass)
    case NoSuchElementClass => Some(RuntimeClass)
    case NullPointerClass => Some(RuntimeClass)
    case CancellationClass => Some(IllegalStateClass)
  }

  /** Distance from the root; strictly decreases along `Superclass`. */
  function Depth(c: Class): nat {
    match c
    case ExceptionClass => 0
    case IOExceptionClass | RuntimeClass => 1
    case ConnectionClosedClass | SocketClass | InterruptedIOClass | UnknownHostClass
      | ClientProtocolClass | IllegalStateClass | IllegalArgumentClass
      | IndexOutOfBoundsClass | NoSuchElementClass | NullPointerClass => 2
    case ConnectClass | SocketTimeoutClass | ConnectTimeoutClass | HttpResponseClass
      | NumberFormatClass | CancellationClass => 3
    case HttpHostConnectClass => 4
  }

  lemma SuperclassIsShallower(c: Class)
    ensures Superclass(c).Some? ==> Depth(Superclass(c).value) < Depth(c)
  {
  }

  /** `c` is `target` or one of its subclasses. */
  predicate SubclassOf(c: Class, target: Class)
    decreases Depth(c)
  {
    c == target
    || (Superclass(c).Some? && (SuperclassIsShallower(c); SubclassOf(Superclass(c).value, target)))
  }

  datatype Exc = Exc(cls: Class, message: string)

  predicate InstanceOf(e: Exc, target: Class) {
    SubclassOf(e.cls, target)
  }
}
