/**
 * `AddResourceActivity`: the checks on the create form, the id given to the
 * new record, and the state of the submit button across the two requests
 * (fetch the list, then post the record).
 */
module AddResource {
  import opened Resources
  import opened Text
  import opened UrlPattern
  import opened Forms
  import Adapter

  // ---------------------------------------------------------------------
  // Form checks

  /** What the click handler concludes from the form: a field is empty, a
      link is not a valid URL, or the trimmed fields are accepted. */
  datatype FormCheck = EmptyField | InvalidUrl | Accepted(fields: Form)

  /** The emptiness test comes first: a form with an empty field is reported
      as such whatever its links look like. */
  function CheckForm(form: Form): (c: FormCheck)
    ensures c.EmptyField? <==> !AllFilled(Trimmed(form))
    ensures c.InvalidUrl? <==> AllFilled(Trimmed(form)) && !UrlsValid(Trimmed(form))
    ensures c.Accepted? <==> AllFilled(Trimmed(form)) && UrlsValid(Trimmed(form))
    ensures c.Accepted? ==> c.fields == Trimmed(form)
  {
    var f := Trimmed(form);
    if f.titulo != [] && f.enlace != [] && f.descripcion != [] && f.imagen != [] && f.tipo != [] then
      if IsValidUrl(f.enlace) && IsValidUrl(f.imagen) then Accepted(f) else InvalidUrl
    else EmptyField
  }

  /** The create screen and the edit dialog accept the same forms. */
  lemma CreateAndEditAcceptAlike(recurso: Resource, form: Form)
    ensures CheckForm(form).Accepted? <==> Adapter.EditedResource(recurso, form).Some?
  {
  }

  // ---------------------------------------------------------------------
  // The new record's id

  const INT_MIN: int := -0x8000_0000
  const INT_MAX: int := 0x7fff_ffff

  /** Kotlin `Int` arithmetic: the result is reduced into the 32-bit range. */
  function WrapInt(n: int): (r: int)
    ensures INT_MIN <= r <= INT_MAX
    ensures (r - n) % 0x1_0000_0000 == 0
    ensures INT_MIN <= n <= INT_MAX ==> r == n
  {
    var d := n - INT_MIN;
    var q := d / 0x1_0000_0000;
    assert d == q * 0x1_0000_0000 + d % 0x1_0000_0000;
    assert (d % 0x1_0000_0000 + INT_MIN) - n == -q * 0x1_0000_0000;
    d % 0x1_0000_0000 + INT_MIN
  }

  /** `it.id ?: 0` */
  function IdOrZero(r: Resource): int {
    r.id.GetOr(0)
  }

  /** `rs.maxOf { it.id ?: 0 }` */
  function MaxIdOrZero(rs: seq<Resource>): (m: int)
    requires |rs| > 0
    ensures forall i | 0 <= i < |rs| :: IdOrZero(rs[i]) <= m
    ensures exists i | 0 <= i < |rs| :: IdOrZero(rs[i]) == m
  {
    if |rs| == 1 then IdOrZero(rs[0])
    else
      var m := MaxIdOrZero(rs[1..]);
      assert forall i | 1 <= i < |rs| :: rs[i] == rs[1..][i - 1];
      if IdOrZero(rs[0]) >= m then IdOrZero(rs[0]) else m
  }

  /** The id computed from the fetched body as the code does it, with the
      `+ 1` in 32-bit arithmetic. */
  function NextIdAsWritten(body: Option<seq<Resource>>): (id: int)
    ensures INT_MIN <= id <= INT_MAX
    ensures body.None? || body.value == [] ==> id == 1
    ensures body.Some? && body.value != [] ==> (id - (MaxIdOrZero(body.value) + 1)) % 0x1_0000_0000 == 0
  {
    if body.Some? && |body.value| > 0 then WrapInt(MaxIdOrZero(body.value) + 1) else 1
  }

  /** A list whose largest id is `Int.MAX_VALUE` makes the code pick
      `Int.MIN_VALUE`, an id smaller than the existing one. */
  lemma NextIdAsWrittenOverflows()
    ensures var r := Resource(Some(INT_MAX), "t", "http://a.bc", "d", "x", "http://a.bc");
      NextIdAsWritten(Some([r])) == INT_MIN && NextIdAsWritten(Some([r])) < r.id.value
  {
    var r := Resource(Some(INT_MAX), "t", "http://a.bc", "d", "x", "http://a.bc");
    assert MaxIdOrZero([r]) == INT_MAX;
  }

  /** The id the new record gets: 1 when the body is absent or empty,
      otherwise one more than the largest `id ?: 0` of the list. */
  function NextId(body: Option<seq<Resource>>): (id: int)
    ensures body.None? || body.value == [] ==> id == 1
    ensures body.Some? && body.value != [] ==>
      (forall i | 0 <= i < |body.value| :: IdOrZero(body.value[i]) < id) &&
      (exists i | 0 <= i < |body.value| :: IdOrZero(body.value[i]) + 1 == id)
  {
    if body.Some? && |body.value| > 0 then MaxIdOrZero(body.value) + 1 else 1
  }

  /** The new id differs from, and exceeds, every id present in the list. */
  lemma NextIdIsFresh(rs: seq<Resource>)
    ensures forall i | 0 <= i < |rs| && rs[i].id.Some? :: rs[i].id.value < NextId(Some(rs))
  {
    if rs != [] {
      assert forall i | 0 <= i < |rs| && rs[i].id.Some? :: rs[i].id.value == IdOrZero(rs[i]);
    }
  }

  /** The new id is at least 1 exactly when the body is absent or empty or
      some record has a non-negative `id ?: 0` (a null id counts as 0). */
  lemma NextIdPositive(body: Option<seq<Resource>>)
    ensures NextId(body) >= 1 <==>
      body.None? || body.value == [] ||
      exists i | 0 <= i < |body.value| :: IdOrZero(body.value[i]) >= 0
  {
  }

  /** Below the overflow the code computes the intended id. */
  lemma NextIdAsWrittenAgrees(body: Option<seq<Resource>>)
    requires body.Some? ==> forall i | 0 <= i < |body.value| :: INT_MIN <= IdOrZero(body.value[i]) < INT_MAX
    ensures NextIdAsWritten(body) == NextId(body)
  {
    if body.Some? && body.value != [] {
      var m := MaxIdOrZero(body.value);
      var i :| 0 <= i < |body.value| && IdOrZero(body.value[i]) == m;
    }
  }

  lemma NextIdExamples()
    ensures NextId(Some([Resource(Some(3), "A", "http://a.bc", "d", "x", "http://a.bc")])) == 4
    ensures NextId(Some([])) == 1 && NextId(None) == 1
    ensures NextId(Some([Resource(Some(-5), "A", "http://a.bc", "d", "x", "http://a.bc"),
                         Resource(None, "B", "http://a.bc", "d", "x", "http://a.bc")])) == 1
  {
    var rs := [Resource(Some(-5), "A", "http://a.bc", "d", "x", "http://a.bc"),
               Resource(None, "B", "http://a.bc", "d", "x", "http://a.bc")];
    assert IdOrZero(rs[1]) == 0;
  }

  /** The record posted: the new id and the five trimmed fields. */
  function NewResource(id: int, f: Form): Resource {
    Resource(Some(id), f.titulo, f.enlace, f.descripcion, f.tipo, f.imagen)
  }

  /** The posted record carries exactly the trimmed form values and the new id. */
  lemma PostedRecordCarriesForm(form: Form, body: Option<seq<Resource>>)
    requires CheckForm(form).Accepted?
    ensures var r := NewResource(NextId(body), CheckForm(form).fields);
      r.id == Some(NextId(body)) &&
      r.titulo == Trim(form.titulo) && r.enlace == Trim(form.enlace) &&
      r.descripcion == Trim(form.descripcion) && r.tipo == Trim(form.tipo) &&
      r.imagen == Trim(form.imagen)
  {
  }

  // ---------------------------------------------------------------------
  // The submit button

  const IDLE_TEXT: string := "Añadir Recurso"
  const BUSY_TEXT: string := "Añadiendo recurso..."

  /** Which callback the screen waits for, with the values its closure
      captured: the trimmed fields while the list is fetched, the record
      while it is posted. */
  datatype Phase = Editing | Fetching(fields: Form) | Posting(record: Resource) | Finished

  /** A request the screen sends: GET of the whole list, or POST of a record. */
  datatype Request = GetResources | PostResource(record: Resource)

  class AddResourceActivity {
    var buttonText: string
    var buttonEnabled: bool
    var phase: Phase
    /** Every request sent so far, in order. */
    var requests: seq<Request>

    /** The button is disabled exactly while a request is outstanding or the
        screen has finished. */
    ghost predicate Valid()
      reads this
    {
      (phase.Editing? <==> buttonEnabled) &&
      (phase.Fetching? || phase.Posting? ==> buttonText == BUSY_TEXT)
    }

    /** The screen as `onCreate` leaves it: the button shows the text of the
        layout and is enabled. */
    constructor (layoutText: string)
      ensures Valid()
      ensures phase == Editing && buttonEnabled && buttonText == layoutText && requests == []
    {
      buttonText := layoutText;
      buttonEnabled := true;
      phase := Editing;
      requests := [];
    }

    /** `resetButton()`: the idle text and an enabled button. It is a step of
        the failure paths of the two callbacks, which then return the screen
        to editing; on its own it does not restore `Valid()`. */
    method ResetButton()
      modifies this
      ensures buttonText == IDLE_TEXT && buttonEnabled
      ensures phase == old(phase) && requests == old(requests)
    {
      buttonText := IDLE_TEXT;
      buttonEnabled := true;
    }

    /** A click on the button. A disabled button delivers no click; a form
        that fails a check sends nothing and leaves the button as it was; an
        accepted form disables the button and then asks for the list. */
    method OnClick(form: Form)
      requires Valid()
      modifies this
      ensures Valid()
      ensures !old(buttonEnabled) || !CheckForm(form).Accepted? ==>
        buttonText == old(buttonText) && buttonEnabled == old(buttonEnabled) &&
        phase == old(phase) && requests == old(requests)
      ensures old(buttonEnabled) && CheckForm(form).Accepted? ==>
        buttonText == BUSY_TEXT && !buttonEnabled &&
        phase == Fetching(CheckForm(form).fields) &&
        requests == old(requests) + [GetResources]
    {
      if buttonEnabled {
        Submit(CheckForm(form));
      }
    }

    /** The click handler once the form has been checked. */
    method Submit(check: FormCheck)
      requires Valid() && buttonEnabled
      modifies this
      ensures Valid()
      ensures !check.Accepted? ==>
        buttonText == old(buttonText) && buttonEnabled &&
        phase == old(phase) && requests == old(requests)
      ensures check.Accepted? ==>
        buttonText == BUSY_TEXT && !buttonEnabled && phase == Fetching(check.fields) &&
        requests == old(requests) + [GetResources]
    {
      if check.Accepted? {
        buttonText := BUSY_TEXT;
        buttonEnabled := false;
        phase := Fetching(check.fields);
        requests := requests + [GetResources];
      }
    }

    /** The callback of the list request. A successful response leads to the
        POST of the new record, the button staying disabled; any other
        outcome resets the button. */
    method OnFetchResponse(response: Response<seq<Resource>>)
      requires Valid() && phase.Fetching?
      modifies this
      ensures Valid()
      ensures response.Success? ==>
        var record := NewResource(NextId(response.body), old(phase).fields);
        phase == Posting(record) && requests == old(requests) + [PostResource(record)] &&
        buttonText == BUSY_TEXT && !buttonEnabled
      ensures !response.Success? ==>
        phase == Editing && requests == old(requests) &&
        buttonText == IDLE_TEXT && buttonEnabled
    {
      if response.Success? {
        var record := NewResource(NextId(response.body), phase.fields);
        phase := Posting(record);
        requests := requests + [PostResource(record)];
      } else {
        ResetButton();
        phase := Editing;
      }
    }

    /** The callback of the POST request. On success the screen finishes with
        the button still disabled; any other outcome resets the button. */
    method OnPostResponse(response: Response<Resource>)
      requires Valid() && phase.Posting?
      modifies this
      ensures Valid()
      ensures requests == old(requests)
      ensures response.Success? ==>
        phase == Finished && !buttonEnabled && buttonText == BUSY_TEXT
      ensures !response.Success? ==>
        phase == Editing && buttonText == IDLE_TEXT && buttonEnabled
    {
      if response.Success? {
        phase := Finished;
      } else {
        ResetButton();
        phase := Editing;
      }
    }
  }
}
