/** The date window of `get_stats` and `reporte_internos` (app.py:543-548 and
    app.py:649-654, which are the same code): a missing `hasta` is today, a
    missing `desde` is thirty days before `hasta`, and `desde` after `hasta` is
    a client error. Both endpoints call `Resolve`. */
module DateWindow {
  import opened Common
  import opened Dates

  /** `timedelta(days=30)` */
  const DEFAULT_SPAN := 30

  /** An inclusive range of days, `desde <= hasta`. */
  datatype Window = Window(desde: int, hasta: int)

  predicate ValidWindow(w: Window)
  {
    ValidDay(w.desde) && ValidDay(w.hasta) && w.desde <= w.hasta
  }

  /** `date(x) BETWEEN date(desde) AND date(hasta)`: both ends included. */
  predicate Contains(w: Window, day: int)
  {
    w.desde <= day <= w.hasta
  }

  predicate OptionalDay(d: Option<int>)
  {
    d.Some? ==> ValidDay(d.value)
  }

  /** Resolves the query parameters against `today` (`date.today()`, passed
      in). Subtracting thirty days from a day before 0001-01-31 raises
      `OverflowError` in Python, which the endpoint turns into a 500. */
  function Resolve(desde: Option<int>, hasta: Option<int>, today: int): (r: Result<Window>)
    requires ValidDay(today) && OptionalDay(desde) && OptionalDay(hasta)
    ensures r.Ok? ==> ValidWindow(r.value)
    ensures r.Ok? ==> r.value.hasta == (if hasta.Some? then hasta.value else today)
    ensures r.Ok? && desde.Some? ==> r.value.desde == desde.value
    ensures r.Ok? && desde.None? ==> r.value.hasta - r.value.desde == DEFAULT_SPAN
    ensures desde.Some? ==> (r.Err? <==> desde.value > (if hasta.Some? then hasta.value else today))
    ensures desde.Some? && r.Err? ==> r.error == BadRequest
    ensures desde.None? && r.Err? ==> r.error == InternalError
    ensures desde.None? ==> (r.Err? <==> (if hasta.Some? then hasta.value else today) - DEFAULT_SPAN < MIN_DAY)
  {
    var h := if hasta.Some? then hasta.value else today;
    if desde.None? && h - DEFAULT_SPAN < MIN_DAY then Err(InternalError)
    else
      var d := if desde.Some? then desde.value else h - DEFAULT_SPAN;
      if d > h then Err(BadRequest) else Ok(Window(d, h))
  }

  /** With no parameters the window is the 31 days ending today. */
  lemma DefaultWindow(today: int)
    requires ValidDay(today) && today > DEFAULT_SPAN
    ensures Resolve(None, None, today) == Ok(Window(today - 30, today))
    ensures forall day :: Contains(Resolve(None, None, today).value, day) <==> today - 30 <= day <= today
  {
  }

  /** A one-day window is accepted. */
  lemma SameDayAccepted(day: int, today: int)
    requires ValidDay(day) && ValidDay(today)
    ensures Resolve(Some(day), Some(day), today) == Ok(Window(day, day))
  {
  }

  /** `desde` one day after `hasta` is rejected with a 400. */
  lemma ReversedRejected(desde: int, hasta: int, today: int)
    requires ValidDay(desde) && ValidDay(hasta) && ValidDay(today) && desde > hasta
    ensures Resolve(Some(desde), Some(hasta), today) == Err(BadRequest)
    ensures Resolve(Some(desde), Some(hasta), today).error.Code() == 400
  {
  }

  /** A missing `desde` never causes the 400: the default lies before `hasta`. */
  lemma DefaultNeverReversed(hasta: Option<int>, today: int)
    requires ValidDay(today) && OptionalDay(hasta)
    ensures Resolve(None, hasta, today) != Err(BadRequest)
  {
  }
}
