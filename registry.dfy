/** The database as one store object: the `Application` and `Grimorio`
    tables and the next primary keys, changed in place by the controllers.
    Each controller is a method that returns its reply and is proved to do
    exactly what module Lifecycle says it does. */
module Registry {
  import opened Schema
  import opened Models
  import opened Lifecycle
  import Clovers

  class Store {
    var apps: seq<Application>
    var grims: seq<Grimorio>
    var nextId: nat
    var nextGrimId: nat

    function State(): DB
      reads this
    {
      DB(apps, grims, nextId, nextGrimId)
    }

    ghost predicate Valid()
      reads this
    {
      Inv(State())
    }

    /** An empty database. */
    constructor ()
      ensures Valid() && State() == Empty
    {
      apps, grims := [], [];
      nextId, nextGrimId := 1, 1;
      EmptyInv();
    }

    /** `create_application`. */
    method CreateApplication(p: Payload) returns (reply: Reply)
      requires Valid()
      modifies this
      ensures Valid() && Outcome(reply, State()) == Create(old(State()), p)
    {
      CreatePreserves(State(), p);
      if !ValidPayload(p) {
        return ValidationError;
      }
      var existing := FindByIdentity(apps, p.identificacion.value.s);
      if existing.Some? {
        return DuplicateIdentity;
      }
      apps := apps + [Application(nextId, p.nombre.value.s, p.apellido.value.s, p.identificacion.value.s,
                                  AgeOf(p.edad.value), p.afinidadMagica.value.s, Pending)];
      nextId := nextId + 1;
      reply := Created;
    }

    /** The route's lookup, then `update_application`. */
    method UpdateApplication(id: int, p: Payload) returns (reply: Reply)
      requires Valid()
      modifies this
      ensures Valid() && Outcome(reply, State()) == Update(old(State()), id, p)
    {
      UpdatePreserves(State(), id, p);
      var found := FindById(apps, id);
      if found.None? {
        return NotFound;
      }
      var i := found.value;
      if !ValidPayload(p) {
        return ValidationError;
      }
      if apps[i].status != Pending {
        return NotPending;
      }
      if p.identificacion.value.s != apps[i].identity {
        var existing := FindByIdentity(apps, p.identificacion.value.s);
        if existing.Some? {
          return DuplicateIdentity;
        }
      }
      var a := apps[i];
      a := a.(name := p.nombre.value.s);
      a := a.(lastname := p.apellido.value.s);
      a := a.(age := AgeOf(p.edad.value));
      a := a.(magicalAffinity := p.afinidadMagica.value.s);
      assert a == Edited(apps[i], p);
      apps := apps[i := a];
      reply := Updated;
    }

    /** The route's lookup, then `delete_application`. */
    method DeleteApplication(id: int) returns (reply: Reply)
      requires Valid()
      modifies this
      ensures Valid() && Outcome(reply, State()) == Delete(old(State()), id)
    {
      DeletePreserves(State(), id);
      var found := FindById(apps, id);
      if found.None? {
        return NotFound;
      }
      var i := found.value;
      var grimorio := FindByAssignment(grims, DecimalText(apps[i].id));
      if grimorio.Some? {
        grims := RemoveAt(grims, grimorio.value);
      }
      apps := RemoveAt(apps, i);
      reply := Deleted;
    }

    /** `assign_grimorio`. */
    method AssignGrimorio(a: Application, draw: nat) returns (name: string)
      requires Valid()
      modifies this
      ensures Valid() && Assignment(name, State()) == Assign(old(State()), a, draw)
    {
      AssignPreserves(State(), a, draw);
      name := Clovers.Pick(draw);
      grims := grims + [Grimorio(nextGrimId, name, name, a.identity)];
      nextGrimId := nextGrimId + 1;
    }

    /** The route's lookup, then `update_application_status`; `draw` is the
        random draw an approval consumes. */
    method UpdateApplicationStatus(id: int, estatus: Option<Json>, draw: nat) returns (reply: Reply)
      requires Valid()
      modifies this
      ensures Valid() && Outcome(reply, State()) == SetStatus(old(State()), id, estatus, draw)
    {
      SetStatusPreserves(State(), id, estatus, draw);
      var found := FindById(apps, id);
      if found.None? {
        return NotFound;
      }
      var i := found.value;
      if estatus != Some(JString("aprobada")) && estatus != Some(JString("rechazada")) {
        return InvalidStatus;
      }
      if apps[i].status == Rechazada {
        return AlreadyRejected;
      }
      if apps[i].status == Aprobada {
        return AlreadyApproved;
      }
      if estatus == Some(JString("aprobada")) {
        var name := AssignGrimorio(apps[i], draw);
        apps := apps[i := apps[i].(status := Aprobada)];
        reply := Approved(name);
      } else {
        apps := apps[i := apps[i].(status := Rechazada)];
        reply := Rejected;
      }
    }

    /** `get_assignments_info`: walks the Grimorios in order and joins each
        with the application of its identity, skipping the unmatched. */
    method GetAssignmentsInfo() returns (rows: seq<AssignmentRow>)
      ensures rows == AssignmentsOf(apps, grims)
    {
      if grims == [] {
        return [];
      }
      rows := [];
      var k := 0;
      while k < |grims|
        invariant 0 <= k <= |grims|
        invariant rows == AssignmentsOf(apps, grims[..k])
      {
        var found := FindByIdentity(apps, grims[k].assignment);
        if found.Some? {
          var a := apps[found.value];
          rows := rows + [AssignmentRow(a.name, a.lastname, a.identity, a.age, a.magicalAffinity, grims[k].rarity)];
        }
        assert grims[..k + 1][..k] == grims[..k];
        k := k + 1;
      }
      assert grims[..k] == grims;
    }
  }
}
