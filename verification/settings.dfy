/**
 Event metadata, the top-level price and the unregister toggle. Each setter
 replaces one top-level entry; the top-level `price` and `event_info.price`
 are separate entries and neither write touches the other.
 */
module Settings {
  import opened Schema

  function GetEventInfo(d: Doc): EventInfo {
    d.eventInfo
  }

  /** `set_event_info`: replaces all three fields at once. */
  function SetEventInfo(d: Doc, place: string, time: string, price: string): (r: Doc)
    ensures OnlyEventDiffers(d, r)
    ensures GetEventInfo(r).place == place && GetEventInfo(r).time == time
    ensures GetEventInfo(r).price == price
  {
    d.(eventInfo := EventInfo(place, time, price))
  }

  /** `clear_event_info`: back to three empty strings. */
  function ClearEventInfo(d: Doc): (r: Doc)
    ensures OnlyEventDiffers(d, r)
    ensures GetEventInfo(r) == EventInfo("", "", "")
  {
    d.(eventInfo := EmptyEvent)
  }

  function GetPrice(d: Doc): Price {
    d.price
  }

  /** `set_price`: stores the given value as the top-level price. */
  function SetPrice(d: Doc, price: Price): (r: Doc)
    ensures OnlyPriceDiffers(d, r)
    ensures GetPrice(r) == price
  {
    d.(price := price)
  }

  function IsUnregisterAllowed(d: Doc): bool {
    d.unregisterAllowed
  }

  /** `set_unregister_allowed`. */
  function SetUnregisterAllowed(d: Doc, allowed: bool): (r: Doc)
    ensures OnlyUnregisterFlagDiffers(d, r)
    ensures IsUnregisterAllowed(r) == allowed
  {
    d.(unregisterAllowed := allowed)
  }

  /** Clearing is setting three empty strings. */
  lemma ClearIsEmptySet(d: Doc)
    ensures ClearEventInfo(d) == SetEventInfo(d, "", "", "")
  {
  }

  /** A second event write overrides the first entirely. */
  lemma SetEventInfoLastWins(d: Doc, p1: string, t1: string, c1: string, p2: string, t2: string, c2: string)
    ensures SetEventInfo(SetEventInfo(d, p1, t1, c1), p2, t2, c2) == SetEventInfo(d, p2, t2, c2)
  {
  }

  /** Writing back the value just read changes nothing, for each setter. */
  lemma SettersWriteBackIsIdentity(d: Doc)
    ensures SetEventInfo(d, d.eventInfo.place, d.eventInfo.time, d.eventInfo.price) == d
    ensures SetPrice(d, GetPrice(d)) == d
    ensures SetUnregisterAllowed(d, IsUnregisterAllowed(d)) == d
  {
  }
}
