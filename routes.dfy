/**
 * The student routes as Flask assembles them (alunos.py:68-70, 111-114,
 * 156-158, 190-193, 246-249): `token_required` runs first, then
 * `admin_required` on the routes that change the table, then the handler.
 *
 * Two layers of `except` stand between a handler's `abort` and the client.
 * The route's own clauses re-raise every abort from inside its `try` as 500,
 * except the 400 it raises itself for an IntegrityError; and `token_required`
 * wraps the handler call in `except Exception`, so whatever escapes the
 * handler becomes 500 as well. A `Reply` carries both the status the handler
 * means (`Intended`, from `Alunos.Code`) and the status the client gets
 * (`Observed`).
 */
module Routes {
  import opened Common
  import Auth
  import Alunos

  /** Which decorators a route carries under `token_required`. */
  datatype Access = AnyUser | AdminOnly

  /** The outcome of the decorator stack before the handler: run it for `who`, or answer `status`. */
  datatype Gate = Admit(who: Auth.Identity) | Refuse(status: int)

  /** What a request gets: the status the code means, the status the client sees, and the payload of a success. */
  datatype Reply<T> = Reply(intended: int, observed: int, body: Option<T>)

  /** `token_required` followed, on admin routes, by `admin_required` (auth.py:195-206), which sees the role the guard attached. */
  function Gatekeep(g: Auth.Guard, access: Access): (r: Gate)
    ensures r.Admit? <==> g.Pass? && (access == AdminOnly ==> g.who.role == Auth.AdminRole)
    ensures r.Admit? ==> r.who == g.who
    ensures g.Deny? ==> r == Refuse(g.status)
    ensures g.Pass? && r.Refuse? ==> r.status == 403
  {
    match g
    case Deny(status) => Refuse(status)
    case Pass(who) =>
      if access == AnyUser then Admit(who)
      else match Auth.AdminRequired(Some(who.role))
           case None => Admit(who)
           case Some(status) =>
             assert access == AdminOnly && who.role != Auth.AdminRole;
             Refuse(status)
  }

  /** The status a route's own `except` clauses give an abort (alunos.py:142-150, 179-184, 232-240, 269-274). */
  function RouteCode(reason: Alunos.Reason): (c: int)
    ensures c == 400 <==> reason == Alunos.AlreadyRegistered
    ensures c == 500 <==> reason != Alunos.AlreadyRegistered
  {
    // the IntegrityError clause raises its 400 outside the `try`; every other
    // abort is an HTTPException raised inside it, which `except Exception` turns into 500
    if reason == Alunos.AlreadyRegistered then 400 else 500
  }

  /** The status the client sees for a handler outcome, through both layers: the route's own `except`
      clauses give `RouteCode`, and `token_required`'s `except Exception` around the handler call
      (auth.py:186-189) then replaces whatever was raised by 500. */
  function Observed<T>(o: Alunos.Outcome<T>, success: int): (c: int)
    ensures o.Done? ==> c == success
    ensures o.Aborted? ==> c == 500
  {
    match o
    case Done(_) => success
    case Aborted(_) => 500
  }

  /** The status the handler means: its success status, or the code it passes to `abort`. */
  function Intended<T>(o: Alunos.Outcome<T>, success: int): (c: int)
    ensures o.Done? ==> c == success
    ensures o.Aborted? ==> c == Alunos.Code(o.reason)
    ensures o.Aborted? ==> (c == 404 <==> o.reason == Alunos.NotFound) && (c == 500 <==> o.reason == Alunos.DatabaseError)
  {
    match o
    case Done(_) => success
    case Aborted(reason) => Alunos.Code(reason)
  }

  function Respond<T>(o: Alunos.Outcome<T>, success: int): (r: Reply<T>)
    ensures r.intended == Intended(o, success) && r.observed == Observed(o, success)
    ensures r.body.Some? <==> o.Done?
    ensures o.Done? ==> r.body == Some(o.value)
  {
    Reply(Intended(o, success), Observed(o, success), if o.Done? then Some(o.value) else None)
  }

  function Refusal<T>(status: int): (r: Reply<T>)
    ensures r.intended == r.observed == status && r.body.None?
  {
    Reply(status, status, None)
  }

  // ---------------------------------------------------------------------------
  // Properties of the stack

  /** Only an authenticated admin reaches the handler of a route that changes the table. */
  lemma {:induction false} WritesNeedAdmin(users: seq<Auth.User>, header: Option<string>, now: int)
    ensures var g := Auth.AuthenticateSpec(users, header, now).1;
            && (Gatekeep(g, AdminOnly).Admit? <==> g.Pass? && g.who.role == Auth.AdminRole)
            && (Gatekeep(g, AdminOnly).Refuse? ==> Gatekeep(g, AdminOnly).status in {401, 403})
            && (g.Pass? && g.who.role != Auth.AdminRole ==> Gatekeep(g, AdminOnly) == Refuse(403))
  {
    var g := Auth.AuthenticateSpec(users, header, now).1;
    if g.Pass? && g.who.role != Auth.AdminRole {
      assert Auth.AdminRequired(Some(g.who.role)) == Some(403);
    }
  }

  /** A request without a usable bearer header is refused with 401 on every route, before any lookup. */
  lemma NoHeaderRefused(users: seq<Auth.User>, header: Option<string>, now: int, access: Access)
    requires Auth.BearerToken(header).None?
    ensures Gatekeep(Auth.AuthenticateSpec(users, header, now).1, access) == Refuse(401)
  {
  }

  /** The route layer turns every abort raised inside the `try` into 500: the intended 404 and the validation 400s are lost. */
  lemma RouteLayerFlattens(reason: Alunos.Reason)
    ensures reason != Alunos.AlreadyRegistered ==> RouteCode(reason) == 500
    ensures RouteCode(reason) != Alunos.Code(reason) <==> reason != Alunos.AlreadyRegistered && reason != Alunos.DatabaseError
  {
  }

  /** Reading a missing id means 404 but is answered 500. */
  lemma MissingReadObserved500(rows: seq<Alunos.Aluno>, id: int)
    requires forall j :: 0 <= j < |rows| ==> rows[j].id != id
    ensures Intended(Alunos.Obter(rows, id), 200) == 404
    ensures RouteCode(Alunos.Obter(rows, id).reason) == 500
    ensures Observed(Alunos.Obter(rows, id), 200) == 500
  {
    assert Alunos.Obter(rows, id).Aborted? by {
      forall a | a in rows ensures a.id != id {
        var k :| 0 <= k < |rows| && rows[k] == a;
      }
    }
  }

  /** A duplicate enrolment number means 400, leaves the route as 400, and is answered 500 by the guard's catch. */
  lemma DuplicateCreateObserved500(rows: seq<Alunos.Aluno>, nextId: nat, data: Alunos.Body)
    requires Alunos.Validar(Some(data), Alunos.Create).None?
    requires exists j :: 0 <= j < |rows| && rows[j].matricula == Alunos.NewRecord(nextId, data).matricula
    ensures var o := Alunos.CadastrarSpec(rows, nextId, Some(data)).2;
            && o == Alunos.Aborted(Alunos.AlreadyRegistered)
            && Intended(o, 201) == 400 && RouteCode(o.reason) == 400 && Observed(o, 201) == 500
  {
  }

  /** Where intended and observed disagree: exactly on the aborts that are not database errors. */
  lemma IntendedVersusObserved<T>(o: Alunos.Outcome<T>, success: int)
    ensures Intended(o, success) != Observed(o, success) <==> o.Aborted? && o.reason != Alunos.DatabaseError
  {
  }

  // ---------------------------------------------------------------------------
  // The five routes, each the composition guard -> (admin check) -> handler

  /** `GET /api/v1/alunos/` (alunos.py:68-108), behind `token_required` only. */
  method Listar(accounts: Auth.UserTable, table: Alunos.Registry, header: Option<string>, now: int,
                page: Option<int>, perPage: Option<int>) returns (reply: Reply<Alunos.Listing>)
    requires accounts.Valid() && table.Valid()
    modifies accounts
    ensures accounts.Valid()
    ensures accounts.users == Auth.AuthenticateSpec(old(accounts.users), header, now).0
    ensures accounts.nextId == old(accounts.nextId)
    ensures var gate := Gatekeep(Auth.AuthenticateSpec(old(accounts.users), header, now).1, AnyUser);
            reply == if gate.Refuse? then Refusal(gate.status) else Respond(Alunos.Listar(table.rows, page, perPage), 200)
  {
    var g := accounts.TokenRequired(header, now);
    var gate := Gatekeep(g, AnyUser);
    if gate.Refuse? {
      return Refusal(gate.status);
    }
    reply := Respond(Alunos.Listar(table.rows, page, perPage), 200);
  }

  /** `POST /api/v1/alunos/` (alunos.py:111-153), behind `token_required` and `admin_required`. */
  method Cadastrar(accounts: Auth.UserTable, table: Alunos.Registry, header: Option<string>, now: int,
                   data: Option<Alunos.Body>) returns (reply: Reply<nat>)
    requires accounts.Valid() && table.Valid()
    modifies accounts, table
    ensures accounts.Valid() && table.Valid()
    ensures accounts.users == Auth.AuthenticateSpec(old(accounts.users), header, now).0
    ensures accounts.nextId == old(accounts.nextId)
    ensures var gate := Gatekeep(Auth.AuthenticateSpec(old(accounts.users), header, now).1, AdminOnly);
            if gate.Refuse? then
              table.rows == old(table.rows) && table.nextId == old(table.nextId) && reply == Refusal(gate.status)
            else
              var r := Alunos.CadastrarSpec(old(table.rows), old(table.nextId), data);
              table.rows == r.0 && table.nextId == r.1 && reply == Respond(r.2, 201)
  {
    var g := accounts.TokenRequired(header, now);
    var gate := Gatekeep(g, AdminOnly);
    if gate.Refuse? {
      return Refusal(gate.status);
    }
    var o := table.Cadastrar(data);
    reply := Respond(o, 201);
  }

  /** `GET /api/v1/alunos/<id>` (alunos.py:156-187), behind `token_required` only. */
  method Obter(accounts: Auth.UserTable, table: Alunos.Registry, header: Option<string>, now: int, id: int)
    returns (reply: Reply<Alunos.Aluno>)
    requires accounts.Valid() && table.Valid()
    modifies accounts
    ensures accounts.Valid()
    ensures accounts.users == Auth.AuthenticateSpec(old(accounts.users), header, now).0
    ensures accounts.nextId == old(accounts.nextId)
    ensures var gate := Gatekeep(Auth.AuthenticateSpec(old(accounts.users), header, now).1, AnyUser);
            reply == if gate.Refuse? then Refusal(gate.status) else Respond(Alunos.Obter(table.rows, id), 200)
  {
    var g := accounts.TokenRequired(header, now);
    var gate := Gatekeep(g, AnyUser);
    if gate.Refuse? {
      return Refusal(gate.status);
    }
    reply := Respond(Alunos.Obter(table.rows, id), 200);
  }

  /** `PUT /api/v1/alunos/<id>` (alunos.py:190-243), behind `token_required` and `admin_required`. */
  method Editar(accounts: Auth.UserTable, table: Alunos.Registry, header: Option<string>, now: int,
                id: int, data: Option<Alunos.Body>) returns (reply: Reply<()>)
    requires accounts.Valid() && table.Valid()
    modifies accounts, table
    ensures accounts.Valid() && table.Valid() && table.nextId == old(table.nextId)
    ensures accounts.users == Auth.AuthenticateSpec(old(accounts.users), header, now).0
    ensures accounts.nextId == old(accounts.nextId)
    ensures var gate := Gatekeep(Auth.AuthenticateSpec(old(accounts.users), header, now).1, AdminOnly);
            if gate.Refuse? then
              table.rows == old(table.rows) && reply == Refusal(gate.status)
            else
              var r := Alunos.EditarSpec(old(table.rows), id, data);
              table.rows == r.0 && reply == Respond(r.1, 200)
  {
    var g := accounts.TokenRequired(header, now);
    var gate := Gatekeep(g, AdminOnly);
    if gate.Refuse? {
      return Refusal(gate.status);
    }
    var o := table.Editar(id, data);
    reply := Respond(o, 200);
  }

  /** `DELETE /api/v1/alunos/<id>` (alunos.py:246-277), behind `token_required` and `admin_required`. */
  method Excluir(accounts: Auth.UserTable, table: Alunos.Registry, header: Option<string>, now: int, id: int)
    returns (reply: Reply<()>)
    requires accounts.Valid() && table.Valid()
    modifies accounts, table
    ensures accounts.Valid() && table.Valid() && table.nextId == old(table.nextId)
    ensures accounts.users == Auth.AuthenticateSpec(old(accounts.users), header, now).0
    ensures accounts.nextId == old(accounts.nextId)
    ensures var gate := Gatekeep(Auth.AuthenticateSpec(old(accounts.users), header, now).1, AdminOnly);
            if gate.Refuse? then
              table.rows == old(table.rows) && reply == Refusal(gate.status)
            else
              var r := Alunos.ExcluirSpec(old(table.rows), id);
              table.rows == r.0 && reply == Respond(r.1, 200)
  {
    var g := accounts.TokenRequired(header, now);
    var gate := Gatekeep(g, AdminOnly);
    if gate.Refuse? {
      return Refusal(gate.status);
    }
    var o := table.Excluir(id);
    reply := Respond(o, 200);
  }
}
