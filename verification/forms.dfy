/**
 * The five text inputs of the create screen and of the edit dialog, and
 * the checks both make on them after trimming.
 */
module Forms {
  import opened Text
  import opened UrlPattern

  /** The five fields as typed, before trimming. */
  datatype Form = Form(titulo: string, enlace: string, descripcion: string, tipo: string, imagen: string)

  /** Every field passed through `trim()`. */
  function Trimmed(f: Form): Form {
    Form(Trim(f.titulo), Trim(f.enlace), Trim(f.descripcion), Trim(f.tipo), Trim(f.imagen))
  }

  /** Every field is non-empty. */
  predicate AllFilled(f: Form) {
    f.titulo != [] && f.enlace != [] && f.descripcion != [] && f.tipo != [] && f.imagen != []
  }

  /** The resource link and the image link both pass `isValidUrl`. */
  predicate UrlsValid(f: Form) {
    IsValidUrl(f.enlace) && IsValidUrl(f.imagen)
  }

  /** A field made of whitespace only. */
  predicate IsBlank(s: string) {
    forall i | 0 <= i < |s| :: IsWhitespace(s[i])
  }

  /** After trimming, a field is empty exactly when it was blank. */
  lemma FilledIffNoBlankField(f: Form)
    ensures AllFilled(Trimmed(f)) <==>
      !IsBlank(f.titulo) && !IsBlank(f.enlace) && !IsBlank(f.descripcion) &&
      !IsBlank(f.tipo) && !IsBlank(f.imagen)
  {
  }

  /** A valid link is never empty, so the emptiness tests on the two links are
      implied by the URL tests. */
  lemma ValidUrlsAreFilled(f: Form)
    requires UrlsValid(f)
    ensures f.enlace != [] && f.imagen != []
  {
    ValidUrlIsLong(f.enlace);
    ValidUrlIsLong(f.imagen);
  }
}
