/** The rows of the five tables the API reads and writes, and the store that
    holds them. Attribute columns the handlers only copy are kept as strings:
    their column types are not part of this model. */
module Schema {
  import opened Keys

  datatype Option<+T> = None | Some(value: T)

  /** A row of the user table. The id is the key the row is stored under. */
  datatype User = User(
    username: string,
    email: string,
    password: string,
    firstName: string,
    lastName: string)

  /** The three catalogue tables: people, planets and vehicles. */
  datatype Kind = People | Planets | Vehicles

  /** A row of a catalogue table. Every constructor carries `name`, the natural
      key a create checks for duplicates. */
  datatype Item =
    | Person(
        name: string, height: string, mass: string, hairColor: string,
        skinColor: string, eyeColor: string, birthYear: string, gender: string,
        planetId: Option<Id>)
    | Planet(
        name: string, diameter: string, rotationPeriod: string,
        orbitalPeriod: string, gravity: string, population: string,
        climate: string, terrain: string, surfaceWater: string)
    | Vehicle(
        name: string, model: string, vehicleClass: string, manufacturer: string,
        costInCredits: string, length: string, crew: string, passengers: string,
        maxAtmosphericSpeed: string, cargoCapacity: string, consumables: string)
  {
    /** The table a record of this shape belongs to. */
    function KindOf(): Kind {
      if Person? then People else if Planet? then Planets else Vehicles
    }
  }

  /** What a favorite points at: one row of one catalogue table. The three
      nullable foreign-key columns of the favorite table become this tagged
      pair, so "exactly one of them is set" holds by construction. */
  datatype Target = Target(kind: Kind, id: Id)

  /** A row of the favorite table: a user's bookmark of one catalogue row. */
  datatype Favorite = Favorite(userId: Id, target: Target)

  /** The whole database: one map from id to row per table. */
  datatype Store = Store(
    users: map<Id, User>,
    people: map<Id, Item>,
    planets: map<Id, Item>,
    vehicles: map<Id, Item>,
    favorites: map<Id, Favorite>)
  {
    /** The catalogue table of the given kind. */
    function Table(k: Kind): map<Id, Item> {
      match k
      case People => people
      case Planets => planets
      case Vehicles => vehicles
    }

    /** This store with the catalogue table of kind `k` replaced by `t`. */
    function WithTable(k: Kind, t: map<Id, Item>): (s': Store)
      ensures s'.Table(k) == t
      ensures forall k' :: k' != k ==> s'.Table(k') == Table(k')
      ensures s'.users == users && s'.favorites == favorites
    {
      match k
      case People => this.(people := t)
      case Planets => this.(planets := t)
      case Vehicles => this.(vehicles := t)
    }
  }

  /** Every catalogue table holds only records of its own shape. */
  ghost predicate WellTyped(s: Store) {
    forall k: Kind, id :: id in s.Table(k) ==> s.Table(k)[id].KindOf() == k
  }
}
