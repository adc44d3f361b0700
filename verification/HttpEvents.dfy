/**
 The part of the simulator's event list that one HTTP connection uses.  Delays are not modelled:
 a pending event may fire at any later moment, so what holds here holds for every timing.
 */
module HttpEvents {

  // 0 is the handle of a default EventId, which no event ever has.
  type EventId = nat

  datatype Action = RequestMain | RequestEmbedded | ParseMain | ServeMain | ServeEmbedded {
    predicate OfServer() {
      ServeMain? || ServeEmbedded?
    }
  }

  datatype Events = Events(pending: map<EventId, Action>, next: EventId)

  const NO_EVENTS := Events(map[], 1)

  function Schedule(ev: Events, a: Action): (Events, EventId) {
    (Events(ev.pending[ev.next := a], ev.next + 1), ev.next)
  }

  // Cancelling an expired handle does nothing, so the guards on IsExpired only save log lines.
  function Cancel(ev: Events, id: EventId): Events {
    ev.(pending := ev.pending - {id})
  }

  predicate IsExpired(ev: Events, id: EventId) {
    id !in ev.pending
  }

  // An event leaves the list before its handler runs.
  function Take(ev: Events, id: EventId): Events {
    ev.(pending := ev.pending - {id})
  }
}
