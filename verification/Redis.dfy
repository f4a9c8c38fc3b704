/** What the auth stores rely on in Redis: a key may carry an expiry, a moment in
    milliseconds, and is gone once the clock has passed it. */
module Redis {

  datatype Expiry = Never | At(when: int)

  predicate Live(e: Expiry, now: int) {
    e.Never? || now <= e.when
  }
}
