/**
  Rows of the events table (storage/models.py, Event), as far as the aggregates and the score read them.
 */
module EventRows {
  import opened Wrappers

  datatype Severity = Info | Low | Medium | High | Critical
  {
    function Rank(): nat {
      match this case Info => 0 case Low => 1 case Medium => 2 case High => 3 case Critical => 4
    }
  }

  /** An absent text column is the empty string; times are microseconds. */
  datatype Event = Event(
    srcIp: string, ts: int, sessionId: string, username: string, password: string, service: string,
    severity: Option<Severity>, eventType: string, tags: set<string>, threatScore: real)

  function Ts(e: Event): int { e.ts }

  function IsType(name: string): Event -> bool { (e: Event) => e.eventType == name }

  function Sessions(events: seq<Event>): set<string> { set e | e in events && e.sessionId != "" :: e.sessionId }

  function Usernames(events: seq<Event>): set<string> { set e | e in events && e.username != "" :: e.username }

  function Passwords(events: seq<Event>): set<string> { set e | e in events && e.password != "" :: e.password }
}
