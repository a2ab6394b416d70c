/** `LogService`: the registry that maps identifiers to services. */
module Registry {
  import opened Identifiers

  /** A registered backend (`LogKitServiceable`). Services are shared references, so a registry
      holds the very instance it was given; only the identifier matters to the registry. */
  class Serviceable {
    const id: Identifier

    constructor (id: Identifier)
      ensures this.id == id
    {
      this.id := id;
    }
  }

  /** The registry's storage after registering `service`: its identifier is bound to it, every
      other binding is kept, and no other key appears. */
  function Registered(storage: map<Identifier, Serviceable>, service: Serviceable)
    : (updated: map<Identifier, Serviceable>)
    ensures service.id in updated && updated[service.id] == service
    ensures updated.Keys == storage.Keys + {service.id}
    ensures forall k :: k in storage && k != service.id ==> updated[k] == storage[k]
  {
    storage[service.id := service]
  }

  class LogService {
    var storage: map<Identifier, Serviceable>

    /** `init()`: an empty registry. */
    constructor ()
      ensures storage == map[]
    {
      storage := map[];
    }

    /** `register(_:)`: binds the service's identifier to the service, overwriting any earlier
        binding (last writer wins), reports whether it overwrote one (the source prints a
        warning then), never fails, and returns the registry itself for chaining. */
    method Register(service: Serviceable) returns (self: LogService, warned: bool)
      modifies this
      ensures self == this
      ensures warned <==> service.id in old(storage)
      ensures storage == Registered(old(storage), service)
    {
      var id := service.id;
      warned := id in storage;
      storage := storage[id := service];
      self := this;
    }
  }

  /** Registering twice under one identifier leaves only the later service bound. */
  lemma LastWriterWins(storage: map<Identifier, Serviceable>, first: Serviceable, second: Serviceable)
    requires first.id == second.id
    ensures Registered(Registered(storage, first), second) == Registered(storage, second)
  {
  }

  /** Registering the same service again changes nothing. */
  lemma RegisterIdempotent(storage: map<Identifier, Serviceable>, service: Serviceable)
    ensures Registered(Registered(storage, service), service) == Registered(storage, service)
  {
  }

  /** The registry grows by one binding for a new identifier and keeps its size on an overwrite. */
  lemma RegisteredSize(storage: map<Identifier, Serviceable>, service: Serviceable)
    ensures |Registered(storage, service)| ==
            if service.id in storage then |storage| else |storage| + 1
  {
    var updated := Registered(storage, service);
    if service.id in storage {
      assert updated.Keys == storage.Keys;
    } else {
      assert updated.Keys == storage.Keys + {service.id};
      assert |updated.Keys| == |storage.Keys| + 1;
    }
  }

  /** Registering one service twice, as a caller may: neither call fails, the second always
      warns, and the service ends up bound to its identifier. */
  method RegisterTwice(registry: LogService, service: Serviceable)
    returns (firstWarned: bool, secondWarned: bool)
    modifies registry
    ensures firstWarned <==> service.id in old(registry.storage)
    ensures secondWarned
    ensures registry.storage == old(registry.storage)[service.id := service]
  {
    var self;
    self, firstWarned := registry.Register(service);
    self, secondWarned := self.Register(service);
  }
}
