/** The toast record of src/types/type.ts and the option/result wrappers the
    model uses for the record's optional fields and for the provider lookup. */
module ToastTypes {

  datatype Option<+T> = None | Some(value: T) {
    /** The value held, or `default` when there is none (JavaScript's `??`). */
    function GetOr(default: T): T {
      match this
      case Some(v) => v
      case None => default
    }
  }

  datatype Result<+R, +E> = Success(value: R) | Failure(error: E)

  /** Toast ids are the strings drawn from the uuid generator. */
  type ToastId = string

  /** Durations are milliseconds, as the number handed to the scheduler. */
  type Millis = int

  datatype ToastKind = SuccessKind | ErrorKind | WarningKind | InfoKind
  datatype Horizontal = Left | Center | Right
  datatype Vertical = Bottom | Middle | Top
  datatype Animation = Slide | Fade | Scale

  /** The caller's `onClose` callback, kept as an opaque handle: the provider
      stores it in the record and never calls it. */
  datatype CloseHandler = CloseHandler(handle: nat)

  /** What a caller passes to showToast: every field of the record except
      the id, each one optional. */
  datatype ToastOptions = ToastOptions(
    kind: Option<ToastKind>,
    horizontal: Option<Horizontal>,
    vertical: Option<Vertical>,
    animation: Option<Animation>,
    message: Option<string>,
    duration: Option<Millis>,
    onClose: Option<CloseHandler>)

  /** One record of the provider's list: `{ id, ...options }`. */
  datatype Toast = Toast(
    id: ToastId,
    kind: Option<ToastKind>,
    horizontal: Option<Horizontal>,
    vertical: Option<Vertical>,
    animation: Option<Animation>,
    message: Option<string>,
    duration: Option<Millis>,
    onClose: Option<CloseHandler>)
  {
    /** The record without its id: what the caller passed in. */
    function Options(): ToastOptions {
      ToastOptions(kind, horizontal, vertical, animation, message, duration, onClose)
    }
  }

  /** The record `{ id, ...options }` built by showToast. */
  function WithId(id: ToastId, o: ToastOptions): (t: Toast)
    ensures t.id == id
    ensures t.Options() == o
  {
    Toast(id, o.kind, o.horizontal, o.vertical, o.animation, o.message, o.duration, o.onClose)
  }
}
