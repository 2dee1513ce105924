/** What the library reads from the machine it runs on. The clock, the local
    offset and the C library's time conversions are not modelled; each is a
    field of `Host`, fixed for one call. */
module Environment {
  import opened Wrappers
  import opened Calendar

  datatype Host = Host(
    now: real,                 // time.time()
    localTz: real,             // LOCALTZ = time.altzone, seconds west of UTC
    utcNow: DateTime,          // datetime.datetime.utcnow()
    loadDate: string,          // _strftime("%Y-%m-%d"): the local date when the module was loaded
    strptime: (string, string) -> Option<DateTime>,  // time.strptime(text, format); None where it raises ValueError
    mktime: DateTime -> real,  // _mktime on the struct's fields
    strftime: (string, real) -> string  // _strftime(pattern, _gmtime(t))
  )

  /** `datetime` objects are always inside the calendar. */
  predicate WellFormed(h: Host) {
    Valid(h.utcNow)
  }

  /** `currentutc()`: `time.time() + LOCALTZ`. */
  function CurrentUtc(h: Host): real {
    h.now + h.localTz
  }
}
