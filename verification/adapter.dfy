/**
 * `ResourcesAdapter`: the full list the adapter was built with, the
 * filtered view it shows, and the effect of the delete and update callbacks
 * on that view.
 */
module Adapter {
  import opened Resources
  import opened Text
  import opened UrlPattern
  import opened Forms

  // ---------------------------------------------------------------------
  // Filtering

  /** The search condition of `filtrar`: the query occurs, ignoring case, in
      the title, the link or the description (not in the type or the image
      link). */
  predicate MatchesQuery(r: Resource, q: string) {
    ContainsIgnoreCase(r.titulo, q) || ContainsIgnoreCase(r.enlace, q) ||
    ContainsIgnoreCase(r.descripcion, q)
  }

  /** `rs.filter { MatchesQuery(it, q) }` */
  function KeepMatching(rs: seq<Resource>, q: string): (r: seq<Resource>)
    ensures |r| <= |rs|
    ensures forall x | x in r :: x in rs && MatchesQuery(x, q)
  {
    if rs == [] then []
    else (if MatchesQuery(rs[0], q) then [rs[0]] else []) + KeepMatching(rs[1..], q)
  }

  /** The view `filtrar(q)` builds from the full list `rs`: all of it for the
      empty query, the matching records otherwise. */
  function Filter(rs: seq<Resource>, q: string): seq<Resource> {
    if q == [] then rs else KeepMatching(rs, q)
  }

  /** The positions `from`, `from + 1`, ... of `rs` whose record matches `q`,
      in ascending order. */
  function MatchPositions(rs: seq<Resource>, q: string, from: nat): (ps: seq<nat>)
    requires from <= |rs|
    decreases |rs| - from
  {
    if from == |rs| then []
    else (if MatchesQuery(rs[from], q) then [from] else []) + MatchPositions(rs, q, from + 1)
  }

  lemma {:induction false} MatchPositionsSpec(rs: seq<Resource>, q: string, from: nat)
    requires from <= |rs|
    ensures var ps := MatchPositions(rs, q, from);
      (forall t | 0 <= t < |ps| :: from <= ps[t] < |rs|) &&
      (forall t, u | 0 <= t < u < |ps| :: ps[t] < ps[u]) &&
      (forall i | from <= i < |rs| :: i in ps <==> MatchesQuery(rs[i], q))
    decreases |rs| - from
  {
    if from < |rs| {
      MatchPositionsSpec(rs, q, from + 1);
    }
  }

  lemma {:induction false} KeepMatchingPicks(rs: seq<Resource>, q: string, from: nat)
    requires from <= |rs|
    ensures var ps := MatchPositions(rs, q, from);
      |KeepMatching(rs[from..], q)| == |ps| &&
      forall t | 0 <= t < |ps| :: ps[t] < |rs| && KeepMatching(rs[from..], q)[t] == rs[ps[t]]
    decreases |rs| - from
  {
    MatchPositionsSpec(rs, q, from);
    if from < |rs| {
      KeepMatchingPicks(rs, q, from + 1);
      assert rs[from..][1..] == rs[from + 1..];
    }
  }

  /** Every record contains the empty string, so the empty query would keep
      the whole list even without the `isEmpty` test. */
  lemma {:induction false} KeepMatchingEmptyQuery(rs: seq<Resource>)
    ensures KeepMatching(rs, "") == rs
  {
    if rs != [] {
      ContainsEmpty(rs[0].titulo);
      KeepMatchingEmptyQuery(rs[1..]);
    }
  }

  /** `filtrar("")` restores the full list, in its order. */
  lemma FilterEmptyQuery(rs: seq<Resource>)
    ensures Filter(rs, "") == rs && KeepMatching(rs, "") == rs
  {
    KeepMatchingEmptyQuery(rs);
  }

  /** `filtrar(q)` yields exactly the records of the full list whose title,
      link or description contains `q` ignoring case, in their original
      order: the view is the full list read at the ascending positions of the
      matching records. */
  lemma FilterSelectsMatching(rs: seq<Resource>, q: string)
    ensures var ps := MatchPositions(rs, q, 0);
      var view := Filter(rs, q);
      |view| == |ps| &&
      (forall t | 0 <= t < |ps| :: ps[t] < |rs| && view[t] == rs[ps[t]]) &&
      (forall t, u | 0 <= t < u < |ps| :: ps[t] < ps[u]) &&
      (forall i | 0 <= i < |rs| :: i in ps <==> MatchesQuery(rs[i], q))
  {
    MatchPositionsSpec(rs, q, 0);
    KeepMatchingPicks(rs, q, 0);
    assert rs[0..] == rs;
    if q == [] {
      KeepMatchingEmptyQuery(rs);
    }
  }

  lemma {:induction false} KeepMatchingIdempotent(rs: seq<Resource>, q: string)
    ensures KeepMatching(KeepMatching(rs, q), q) == KeepMatching(rs, q)
  {
    if rs != [] {
      KeepMatchingIdempotent(rs[1..], q);
      var rest := KeepMatching(rs[1..], q);
      if MatchesQuery(rs[0], q) {
        var kept := [rs[0]] + rest;
        assert KeepMatching(rs, q) == kept;
        assert kept[0] == rs[0] && kept[1..] == rest;
        assert KeepMatching(kept, q) == [rs[0]] + KeepMatching(rest, q);
      } else {
        assert KeepMatching(rs, q) == [] + rest == rest;
      }
    }
  }

  /** Filtering the filtered view again with the same query changes nothing. */
  lemma FilterIdempotent(rs: seq<Resource>, q: string)
    ensures Filter(Filter(rs, q), q) == Filter(rs, q)
  {
    KeepMatchingIdempotent(rs, q);
  }

  /** Of the records titled "A" and "B" (no other field holding an `a`), the
      query "a" keeps the first only, the upper-case title matching the
      lower-case query. */
  lemma FilterExample()
    ensures var a := Resource(Some(1), "A", "http://x.io", "uno", "libro", "http://x.io/i");
      var b := Resource(Some(2), "B", "http://y.io", "dos", "video", "http://y.io/i");
      Filter([a, b], "a") == [a]
  {
    var a := Resource(Some(1), "A", "http://x.io", "uno", "libro", "http://x.io/i");
    var b := Resource(Some(2), "B", "http://y.io", "dos", "video", "http://y.io/i");
    assert RegionMatchesIgnoreCase(a.titulo, 0, "a");
    NotContainsChar(b.titulo, 'a');
    NotContainsChar(b.enlace, 'a');
    NotContainsChar(b.descripcion, 'a');
    assert [a, b][1..] == [b];
  }

  // ---------------------------------------------------------------------
  // In-place changes to the view

  /** `MutableList.removeAt(p)`: the element at `p` goes, the others keep
      their order. */
  function RemoveAt<T>(s: seq<T>, p: nat): (r: seq<T>)
    requires p < |s|
    ensures |r| == |s| - 1
    ensures forall i | 0 <= i < p :: r[i] == s[i]
    ensures forall i | p <= i < |r| :: r[i] == s[i + 1]
    ensures multiset(r) + multiset{s[p]} == multiset(s)
  {
    assert s == s[..p] + [s[p]] + s[p + 1..];
    s[..p] + s[p + 1..]
  }

  /** The check `modificarRecurso` makes on the trimmed fields of the edit
      dialog and the record it then submits: a copy of `recurso` with the
      five edited fields replaced and its `id` kept. */
  function EditedResource(recurso: Resource, form: Form): (r: Option<Resource>)
    ensures r.Some? <==> AllFilled(Trimmed(form)) && UrlsValid(Trimmed(form))
    ensures r.Some? ==>
      var f := Trimmed(form);
      r.value.id == recurso.id &&
      Form(r.value.titulo, r.value.enlace, r.value.descripcion, r.value.tipo, r.value.imagen) == f
  {
    var f := Trimmed(form);
    if f.titulo != [] && f.enlace != [] && IsValidUrl(f.enlace) &&
       f.imagen != [] && IsValidUrl(f.imagen) && f.descripcion != [] && f.tipo != []
    then Some(recurso.(titulo := f.titulo, enlace := f.enlace, imagen := f.imagen,
                       descripcion := f.descripcion, tipo := f.tipo))
    else None
  }

  /** A request the adapter sends: DELETE with the record's id in the path
      (the text `null` when the id is absent), or PUT of a record under its id. */
  datatype Request = Delete(target: Option<int>) | Update(id: int, body: Resource)

  class ResourcesAdapter {
    /** The list the adapter was built with; nothing ever changes it. */
    const recursos: seq<Resource>
    /** The list the screen shows. */
    var recursosFiltrados: seq<Resource>

    constructor (recursos: seq<Resource>)
      ensures this.recursos == recursos && recursosFiltrados == recursos
    {
      this.recursos := recursos;
      recursosFiltrados := recursos;
    }

    /** `getItemCount()`: the number of rows shown. */
    method GetItemCount() returns (n: nat)
      ensures n == |recursosFiltrados|
    {
      n := |recursosFiltrados|;
    }

    /** `filtrar(query)`: the view is rebuilt from the full list alone, so
        whatever was deleted from or replaced in it before is back. */
    method Filtrar(query: string)
      modifies this
      ensures recursosFiltrados == Filter(recursos, query)
    {
      recursosFiltrados := Filter(recursos, query);
    }

    /** `eliminarRecurso(position)` followed by the callback that receives
        `response`: the record at `position` leaves the view only when the
        server confirms. */
    method EliminarRecurso(position: nat, response: Response<()>) returns (request: Request)
      requires position < |recursosFiltrados|
      modifies this
      ensures request == Delete(old(recursosFiltrados)[position].id)
      ensures response.Success? ==> recursosFiltrados == RemoveAt(old(recursosFiltrados), position)
      ensures !response.Success? ==> recursosFiltrados == old(recursosFiltrados)
    {
      request := Delete(recursosFiltrados[position].id);
      if response.Success? {
        recursosFiltrados := RemoveAt(recursosFiltrados, position);
      }
    }

    /** `actualizarRecurso(nuevoRecurso, position)` followed by the callback
        that receives `response`: no request without an id; on a confirmed
        update the row at `position` becomes the returned record, or
        `nuevoRecurso` when the response has no body. */
    method ActualizarRecurso(nuevoRecurso: Resource, position: nat, response: Response<Resource>)
      returns (request: Option<Request>)
      requires position < |recursosFiltrados|
      modifies this
      ensures nuevoRecurso.id.None? ==> request == None
      ensures nuevoRecurso.id.Some? ==> request == Some(Update(nuevoRecurso.id.value, nuevoRecurso))
      ensures request.Some? && response.Success? ==>
        recursosFiltrados == old(recursosFiltrados)[position := response.body.GetOr(nuevoRecurso)]
      ensures !(request.Some? && response.Success?) ==> recursosFiltrados == old(recursosFiltrados)
    {
      match nuevoRecurso.id
      case None =>
        request := None;
      case Some(recursoId) =>
        request := Some(Update(recursoId, nuevoRecurso));
        if response.Success? {
          recursosFiltrados := recursosFiltrados[position := response.body.GetOr(nuevoRecurso)];
        }
    }

    /** The "Guardar" action of the edit dialog opened by
        `modificarRecurso(recurso, position)`: an invalid form sends nothing
        and leaves the view alone; a valid one goes through
        `ActualizarRecurso` with the edited copy of `recurso`. */
    method ModificarRecurso(recurso: Resource, position: nat, form: Form, response: Response<Resource>)
      returns (request: Option<Request>)
      requires position < |recursosFiltrados|
      modifies this
      ensures EditedResource(recurso, form).None? ==>
        request == None && recursosFiltrados == old(recursosFiltrados)
      ensures EditedResource(recurso, form).Some? ==>
        var edited := EditedResource(recurso, form).value;
        (request.Some? <==> recurso.id.Some?) &&
        (request.Some? ==> request.value == Update(recurso.id.value, edited)) &&
        (request.Some? && response.Success? ==>
          recursosFiltrados == old(recursosFiltrados)[position := response.body.GetOr(edited)]) &&
        (!(request.Some? && response.Success?) ==> recursosFiltrados == old(recursosFiltrados))
    {
      var edited := EditedResource(recurso, form);
      if edited.Some? {
        request := ActualizarRecurso(edited.value, position, response);
      } else {
        request := None;
      }
    }

    /** `clearDatos()`: the view becomes empty; the full list stays. */
    method ClearDatos()
      modifies this
      ensures recursosFiltrados == []
    {
      recursosFiltrados := [];
    }
  }
}
