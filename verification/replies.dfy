/** What a handler hands back: a value or one of the failures the API
    answers with, and the store the request leaves behind. */
module Replies {
  import opened Schema

  /** Every failure answer of the handlers in scope. */
  datatype Failure =
      /** signup: the email or the username is already registered */
    | UserExists
      /** create: a catalogue row with this name already exists */
    | NameTaken(kind: Kind)
      /** get, delete and favorites: no user with this id */
    | NoSuchUser
      /** get and delete: no catalogue row with this id */
    | NoSuchItem(kind: Kind)
      /** delete of a favorite by id: no favorite with this id */
    | NoSuchFavorite
      /** update: no user with this id */
    | UserNotInSystem
      /** update: no catalogue row with this id */
    | ItemNotInSystem(kind: Kind)
      /** login and the private route: no user with this username or id */
    | UserDoesNotExist
      /** login: the password does not match */
    | BadUsernameOrPassword
      /** favorites: the catalogue row to (un)favorite does not exist */
    | TargetMissing(kind: Kind)
      /** add favorite: the user already has this favorite */
    | AlreadyFavorited(kind: Kind)
      /** remove favorite: the user does not have this favorite */
    | NotFavorited(kind: Kind)

  datatype Result<+T> = Ok(value: T) | Err(failure: Failure)

  /** The answer of a handler together with the store after the request. */
  datatype Step<+T> = Step(result: Result<T>, store: Store)

  /** The HTTP status the API sends with a failure. */
  function FailureStatus(f: Failure): (code: int)
    ensures code in {400, 401, 404}
    ensures code == 404 <==> f == UserDoesNotExist
    ensures code == 401 <==> f == BadUsernameOrPassword
  {
    match f
    case UserDoesNotExist => 404
    case BadUsernameOrPassword => 401
    case _ => 400
  }

  /** The HTTP status of an answer: 200 for every success. */
  function Status<T>(r: Result<T>): int {
    match r
    case Ok(_) => 200
    case Err(f) => FailureStatus(f)
  }

  /** The `msg` field of the JSON body the API sends with a failure. */
  function Message(f: Failure): string {
    match f
    case UserExists => "User exist in the system"
    case NameTaken(k) =>
      (match k
       case People => "El personaje ya existe en el sistema"
       case Planets => "El planeta ya existe en el sistema"
       case Vehicles => "El vehiculo ya existe en el sistema")
    case NoSuchUser => "Usuario no existe"
    case NoSuchItem(k) =>
      (match k
       case People => "Personaje no existe"
       case Planets => "Planeta no existe"
       case Vehicles => "Vehiculo no existe")
    case NoSuchFavorite => "Favoritos no existe"
    case UserNotInSystem => "El usuario no existe en el sistema"
    case ItemNotInSystem(k) =>
      (match k
       case People => "El personaje no existe en el sistema"
       case Planets => "El planeta no existe en el sistema"
       case Vehicles => "El vehiculo no existe en el sistema")
    case UserDoesNotExist => "User does not exist"
    case BadUsernameOrPassword => "Bad username or password"
    case TargetMissing(k) =>
      (match k
       case People => "Ese personaje no existe"
       case Planets => "Ese planeta no existe"
       case Vehicles => "Ese vehiculo no existe")
    case AlreadyFavorited(k) =>
      (match k
       case People => "Ese usuario ya cuenta con ese personaje en favorito"
       case Planets => "Ese usuario ya cuenta con ese planeta en favorito"
       case Vehicles => "Ese usuario ya cuenta con ese vehiculo en favorito")
    case NotFavorited(k) =>
      (match k
       case People => "Ese usuario ya no cuenta con ese personaje en favorito"
       case Planets => "Ese usuario ya no cuenta con ese planeta en favorito"
       case Vehicles => "Ese usuario ya no cuenta con ese vehiculo en favorito")
  }
}
