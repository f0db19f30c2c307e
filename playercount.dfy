/**
 * `updatePlayerCount`: the text shown in the `#player-count` element for one poll of the
 * server-status endpoint. The request itself and the JSON parser are outside the model;
 * their outcome is an input.
 */
module PlayerCount {
  import opened Wrappers
  import opened Text
  import opened Decimal

  /**
   * A number field of the JSON body as the script sees it: `None` when the field is absent
   * or `null` (JavaScript reads `undefined` or `null`, both falsy).
   */
  type Field = Option<int>

  /** The two counters of one JSON object. */
  datatype Counts = Counts(clients: Field, maxClients: Field)

  /**
   * What `response.json()` gives: a body that is not JSON (the promise rejects), the JSON
   * `null` (reading `.Data` on it throws), another non-object value (every property reads as
   * `undefined`), or an object with its optional `Data` object and its top-level counters.
   * `data` is `None` when `Data` is absent, `null` or not an object.
   */
  datatype Body = Malformed | Null | NonObject | Object(data: Option<Counts>, top: Counts)

  /** How one poll ended: the request failed, or a response arrived with its `ok` flag. */
  datatype Poll = NetworkError | Response(ok: bool, body: Body)

  /** JavaScript truthiness of a number field: present and not 0. */
  predicate Truthy(f: Field) {
    f.Some? && f.value != 0
  }

  /** `a || b || fallback` on number fields. */
  function FirstTruthy(a: Field, b: Field, fallback: int): int {
    if Truthy(a) then a.value else if Truthy(b) then b.value else fallback
  }

  /** `data.Data?.clients` and `data.Data?.sv_maxclients`: `undefined` without a `Data` object. */
  function NestedCounts(data: Option<Counts>): Counts {
    data.GetOr(Counts(None, None))
  }

  /**
   * The counters the script displays, or `None` when it shows `N/A`: a failed request, a
   * response that is not `ok`, and a body the parser rejects or that is `null` (both caught).
   */
  function Displayed(poll: Poll): Option<(int, int)> {
    match poll
    case NetworkError => None
    case Response(ok, body) =>
      if !ok then None
      else match body
        case Malformed => None
        case Null => None
        case NonObject => Some((0, 128))
        case Object(data, top) =>
          var nested := NestedCounts(data);
          Some((FirstTruthy(nested.clients, top.clients, 0),
                FirstTruthy(nested.maxClients, top.maxClients, 128)))
  }

  /** The text put into the element: `current/max`, or `N/A`. */
  function PlayerCountText(poll: Poll): string {
    match Displayed(poll)
    case None => "N/A"
    case Some((current, max)) => IntToString(current) + "/" + IntToString(max)
  }

  /** Reads a displayed text back into its two counters; `None` for anything else. */
  function ParsePlayerCount(text: string): Option<(int, int)> {
    var parts := Split(text, '/');
    if |parts| != 2 then None
    else match (ParseInt(parts[0]), ParseInt(parts[1]))
      case (Some(current), Some(max)) => Some((current, max))
      case _ => None
  }

  /** The text says exactly what was decided: `N/A` for a failure, both counters otherwise. */
  lemma ParsePlayerCountText(poll: Poll)
    ensures ParsePlayerCount(PlayerCountText(poll)) == Displayed(poll)
  {
    match Displayed(poll)
    case None =>
      assert "N/A" == "N" + ['/'] + "A";
      SplitAfter("N", '/', "A");
      SplitFree("A", '/');
    case Some((current, max)) =>
      var c, m := IntToString(current), IntToString(max);
      IntToStringHasNoSlash(current);
      IntToStringHasNoSlash(max);
      SplitAfter(c, '/', m);
      SplitFree(m, '/');
      assert c + "/" + m == c + ['/'] + m;
      ParseIntToString(current);
      ParseIntToString(max);
  }

  /**
   * The `||` fallbacks: the nested field wins when truthy, then the top-level one, then the
   * default; a 0 counts as missing. So the maximum shown is never 0, and the current count
   * is 0 only when neither field holds a non-zero number.
   */
  lemma DisplayedCounters(poll: Poll)
    ensures Displayed(poll).Some? <==> poll.Response? && poll.ok && !poll.body.Malformed? && !poll.body.Null?
    ensures Displayed(poll).Some? ==> Displayed(poll).value.1 != 0
    ensures Displayed(Response(true, NonObject)) == Some((0, 128))
    ensures poll.Response? && poll.ok && poll.body.Object? ==>
              var d := poll.body.data;
              var top := poll.body.top;
              var (current, max) := Displayed(poll).value;
              (d.Some? && Truthy(d.value.clients) ==> current == d.value.clients.value)
              && ((d.None? || !Truthy(d.value.clients)) && Truthy(top.clients) ==> current == top.clients.value)
              && (current == 0 <==> (d.None? || !Truthy(d.value.clients)) && !Truthy(top.clients))
              && (d.Some? && Truthy(d.value.maxClients) ==> max == d.value.maxClients.value)
              && ((d.None? || !Truthy(d.value.maxClients)) && Truthy(top.maxClients) ==> max == top.maxClients.value)
              && ((d.None? || !Truthy(d.value.maxClients)) && !Truthy(top.maxClients) ==> max == 128)
  {
  }

  /** `{Data: {clients: 42, sv_maxclients: 100}}` shows `42/100`. */
  lemma NestedResponseShown()
    ensures PlayerCountText(Response(true, Object(Some(Counts(Some(42), Some(100))), Counts(None, None))))
            == "42/100"
  {
  }

  /** `{clients: 5}` shows `5/128`, and a reported maximum of 0 shows as 128 as well. */
  lemma DefaultMaximumShown()
    ensures PlayerCountText(Response(true, Object(None, Counts(Some(5), None)))) == "5/128"
    ensures PlayerCountText(Response(true, Object(None, Counts(Some(5), Some(0))))) == "5/128"
  {
  }

  /**
   * A failed request, a response that is not `ok`, a body the parser rejects and a `null`
   * body all show `N/A`.
   */
  lemma FailuresShowNotAvailable(body: Body)
    ensures PlayerCountText(NetworkError) == "N/A"
    ensures PlayerCountText(Response(false, body)) == "N/A"
    ensures PlayerCountText(Response(true, Malformed)) == "N/A"
    ensures PlayerCountText(Response(true, Null)) == "N/A"
  {
  }

  /**
   * One poll's effect on the element's text: nothing at all when the page has no
   * `#player-count` element (`None`), otherwise the new text, which reads back as the
   * counters decided for the poll.
   */
  function UpdatePlayerCount(element: Option<string>, poll: Poll): (shown: Option<string>)
    ensures shown.None? <==> element.None?
    ensures shown.Some? ==> ParsePlayerCount(shown.value) == Displayed(poll)
  {
    ParsePlayerCountText(poll);
    if element.None? then None else Some(PlayerCountText(poll))
  }
}
