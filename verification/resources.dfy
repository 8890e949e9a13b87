/** The record exchanged with the backend, and the shape of a network call's outcome. */
module Resources {

  datatype Option<+T> = None | Some(value: T) {
    /** Kotlin's elvis operator `this ?: default` */
    function GetOr(default: T): T {
      match this
      case Some(v) => v
      case None => default
    }
  }

  /** `data class Resources`: an optional server id and five text fields. */
  datatype Resource = Resource(
    id: Option<int>,
    titulo: string,
    enlace: string,
    descripcion: string,
    tipo: string,
    imagen: string)

  /**
   * What a Retrofit callback receives: `onResponse` with a 2xx status and a
   * possibly absent body, `onResponse` with any other status, or `onFailure`.
   */
  datatype Response<+T> = Success(body: Option<T>) | Unsuccessful | Failure
}
