/**
 The stored document of the event-registration bot, in two shapes:
 - `RawDoc`, the document as it sits in the JSON store, where every top-level
   key may be missing and the legacy `allow_unregister` key may linger;
 - `Doc`, the document once every key the operations read is present.
 */
module Schema {

  datatype Option<+T> = None | Some(value: T)

  /** A chat user id. The store keys registered users by the decimal string of
      the id; since that rendering is injective the model keys by the id. */
  type UserId = int

  /** The top-level `price` entry: created as the number 0, but `set_price`
      stores whatever value it is handed. */
  datatype Price = Number(amount: int) | Text(text: string)

  /** The `event_info` record; "unset" is three empty strings. */
  datatype EventInfo = EventInfo(place: string, time: string, price: string)

  const EmptyEvent: EventInfo := EventInfo("", "", "")

  /** One entry of `registered_users`. `registeredAt` is the ISO timestamp the
      caller supplies; its format is not interpreted. */
  datatype Guest = Guest(name: string, username: Option<string>, registeredAt: string)

  /** The document with every key the operations read. */
  datatype Doc = Doc(
    maxSlots: int,
    price: Price,
    eventInfo: EventInfo,
    unregisterAllowed: bool,
    registeredUsers: map<UserId, Guest>,
    blacklist: seq<UserId>)

  /** The document as loaded: `None` is a key absent from the JSON object. */
  datatype RawDoc = RawDoc(
    maxSlots: Option<int>,
    price: Option<Price>,
    eventInfo: Option<EventInfo>,
    unregisterAllowed: Option<bool>,
    allowUnregister: Option<bool>,
    registeredUsers: Option<map<UserId, Guest>>,
    blacklist: Option<seq<UserId>>)

  /** `b` agrees with `a` everywhere except possibly `registeredUsers`. */
  predicate OnlyUsersDiffer(a: Doc, b: Doc) {
    a.(registeredUsers := b.registeredUsers) == b
  }

  /** `b` agrees with `a` everywhere except possibly `blacklist`. */
  predicate OnlyBlacklistDiffers(a: Doc, b: Doc) {
    a.(blacklist := b.blacklist) == b
  }

  /** `b` agrees with `a` everywhere except possibly `eventInfo`. */
  predicate OnlyEventDiffers(a: Doc, b: Doc) {
    a.(eventInfo := b.eventInfo) == b
  }

  /** `b` agrees with `a` everywhere except possibly the top-level `price`. */
  predicate OnlyPriceDiffers(a: Doc, b: Doc) {
    a.(price := b.price) == b
  }

  /** `b` agrees with `a` everywhere except possibly `unregisterAllowed`. */
  predicate OnlyUnregisterFlagDiffers(a: Doc, b: Doc) {
    a.(unregisterAllowed := b.unregisterAllowed) == b
  }
}
