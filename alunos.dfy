/**
 * The student-record service of backend/routes/alunos.py: the validator
 * `validar_aluno`, the `alunos` table (rows in storage order plus the
 * AUTO_INCREMENT counter) and the five route handlers, stripped of HTTP.
 *
 * A handler either finishes (`Done`) or aborts with a `Reason`; `Code` gives
 * the status the handler means by that abort. How the surrounding `except`
 * clauses and the guard turn aborts into other statuses is in module Routes.
 */
module Alunos {
  import opened Common
  import opened Text

  /** The four business fields, in the order the code checks and scans them. */
  datatype Field = Nome | Matricula | Curso | Email

  const Fields: seq<Field> := [Nome, Matricula, Curso, Email]

  /** The JSON key of a field. */
  function Key(f: Field): string {
    match f
    case Nome => "nome"
    case Matricula => "matricula"
    case Curso => "curso"
    case Email => "email"
  }

  /** Where a field stands in `Fields`. */
  function Pos(f: Field): (k: nat)
    ensures k < |Fields| && Fields[k] == f
  {
    match f
    case Nome => 0
    case Matricula => 1
    case Curso => 2
    case Email => 3
  }

  /** One row of the `alunos` table. */
  datatype Aluno = Aluno(id: nat, nome: string, matricula: string, curso: string, email: string)

  function Get(a: Aluno, f: Field): string {
    match f
    case Nome => a.nome
    case Matricula => a.matricula
    case Curso => a.curso
    case Email => a.email
  }

  /** One `campo = %s` assignment of an UPDATE. */
  function Put(a: Aluno, f: Field, v: string): (b: Aluno)
    ensures b.id == a.id && Get(b, f) == v
    ensures forall g :: g != f ==> Get(b, g) == Get(a, g)
  {
    match f
    case Nome => a.(nome := v)
    case Matricula => a.(matricula := v)
    case Curso => a.(curso := v)
    case Email => a.(email := v)
  }

  /** Two rows with the same id and the same four fields are the same row. */
  lemma SameRow(a: Aluno, b: Aluno)
    requires a.id == b.id
    requires forall f :: Get(a, f) == Get(b, f)
    ensures a == b
  {
    assert Get(a, Nome) == Get(b, Nome) && Get(a, Matricula) == Get(b, Matricula);
    assert Get(a, Curso) == Get(b, Curso) && Get(a, Email) == Get(b, Email);
  }

  /** A request body: the JSON object, with string values. */
  type Body = map<string, string>

  datatype Operation = Create | Update

  /** Why a handler aborts; each carries the description passed to `abort`. */
  datatype Reason =
    | NoData                 // "Dados do aluno não fornecidos"
    | Required(field: Field) // "Campo '<campo>' é obrigatório"
    | InvalidEmail           // "Email inválido"
    | MatriculaNotDigits     // "Matrícula deve conter apenas números"
    | AlreadyRegistered      // "Matrícula ou email já cadastrados" (IntegrityError)
    | NotFound               // "Aluno não encontrado"
    | NothingToUpdate        // "Nenhum dado fornecido para atualização"
    | DatabaseError          // any other mysql.connector.Error

  /** The status code each `abort` names. */
  function Code(r: Reason): (c: int)
    ensures c == 404 <==> r == NotFound
    ensures c == 500 <==> r == DatabaseError
    ensures c in {400, 404, 500}
  {
    match r
    case NotFound => 404
    case DatabaseError => 500
    case _ => 400
  }

  /** What a handler produces: its value, or the abort it raises. */
  datatype Outcome<T> = Done(value: T) | Aborted(reason: Reason)

  /** The body of a successful list: one page of rows, the table size, and the echoed arguments. */
  datatype Listing = Listing(alunos: seq<Aluno>, total: nat, page: int, perPage: int)

  // ---------------------------------------------------------------------------
  // validar_aluno

  /** Present and not blank after `strip()`. */
  predicate Filled(data: Body, f: Field) {
    Key(f) in data && !IsBlank(data[Key(f)])
  }

  /** All four fields present and not blank: the loop over `campos_obrigatorios` passes. */
  predicate AllFilled(data: Body) {
    Filled(data, Nome) && Filled(data, Matricula) && Filled(data, Curso) && Filled(data, Email)
  }

  /** The e-mail rule, on the value as sent. */
  predicate EmailOk(data: Body) {
    "email" in data ==> '@' in data["email"]
  }

  /** The enrolment-number rule, on the value as sent. */
  predicate MatriculaOk(data: Body) {
    "matricula" in data ==> IsDigits(data["matricula"])
  }

  /** `validar_aluno(data, operacao)` (alunos.py:47-64): `None` when it returns, else the reason of its abort. */
  function Validar(data: Option<Body>, op: Operation): (r: Option<Reason>)
    ensures r.None? <==>
              && data.Some? && data.value != map[]
              && (op == Create ==> AllFilled(data.value))
              && EmailOk(data.value) && MatriculaOk(data.value)
    ensures r.Some? ==> Code(r.value) == 400
    ensures data.None? || data == Some(map[]) ==> r == Some(NoData)
    ensures data.Some? && data.value != map[] && op == Create && !AllFilled(data.value) ==>
              r.Some? && r.value.Required?
    ensures r.Some? && r.value.Required? ==>
              && op == Create && data.Some?
              && !Filled(data.value, r.value.field)
              && forall k :: 0 <= k < Pos(r.value.field) ==> Filled(data.value, Fields[k])
  {
    if data.None? || data.value == map[] then Some(NoData)
    else
      var body := data.value;
      var missing := FirstWhere(Fields, (f: Field) => !Filled(body, f));
      if op == Create && missing.Some? then Some(Required(Fields[missing.value]))
      else if !EmailOk(body) then Some(InvalidEmail)
      else if !MatriculaOk(body) then Some(MatriculaNotDigits)
      else None
  }

  // ---------------------------------------------------------------------------
  // The table and the row-level operations

  /** The table invariant: ids below the counter and increasing in storage order, unique enrolment numbers and e-mails, and the validator's format rules. */
  ghost predicate Consistent(rows: seq<Aluno>, nextId: nat) {
    && (forall i :: 0 <= i < |rows| ==> rows[i].id < nextId)
    && (forall i, j :: 0 <= i < j < |rows| ==> rows[i].id < rows[j].id)
    && (forall i, j :: 0 <= i < j < |rows| ==>
          rows[i].matricula != rows[j].matricula && rows[i].email != rows[j].email)
    && (forall i :: 0 <= i < |rows| ==> RowOk(rows[i]))
  }

  /** The format rules of `validar_aluno`, as they hold of a stored row. */
  predicate RowOk(a: Aluno) {
    IsDigits(a.matricula) && '@' in a.email
  }

  /** The UNIQUE keys `a` would violate next to `others`: what makes MySQL raise IntegrityError. */
  predicate Clash(others: seq<Aluno>, a: Aluno) {
    exists j :: 0 <= j < |others| && (others[j].matricula == a.matricula || others[j].email == a.email)
  }

  /** `SELECT ... FROM alunos WHERE id = %s`, `fetchone()`. */
  function IndexOfId(rows: seq<Aluno>, id: int): (r: Option<nat>)
    ensures r.Some? ==> r.value < |rows| && rows[r.value].id == id
    ensures r.None? <==> forall j :: 0 <= j < |rows| ==> rows[j].id != id
  {
    FirstWhere(rows, (a: Aluno) => a.id == id)
  }

  /** The row the INSERT of `cadastrar_aluno` writes (alunos.py:123-131). */
  function NewRecord(id: nat, data: Body): Aluno
    requires AllFilled(data)
  {
    Aluno(id, Strip(data["nome"]), Strip(data["matricula"]), Strip(data["curso"]), Lower(Strip(data["email"])))
  }

  /** `Strip(body[key])` when the key was sent, else the current value. */
  function Pick(current: string, body: Body, key: string): string {
    if key in body then Strip(body[key]) else current
  }

  /** The row after `editar_aluno`'s UPDATE: each field sent is replaced by its stripped value, the rest kept. */
  function Patched(a: Aluno, body: Body): (b: Aluno)
    ensures b.id == a.id
    ensures forall f :: Get(b, f) == if Key(f) in body then Strip(body[Key(f)]) else Get(a, f)
  {
    Aluno(a.id, Pick(a.nome, body, "nome"), Pick(a.matricula, body, "matricula"),
          Pick(a.curso, body, "curso"), Pick(a.email, body, "email"))
  }

  /** `UPDATE ... SET c1 = v1, c2 = v2, ...`: the assignments applied left to right. */
  function SetClause(a: Aluno, campos: seq<Field>, valores: seq<string>): (b: Aluno)
    requires |campos| == |valores|
    ensures b.id == a.id
  {
    if campos == [] then a
    else Put(SetClause(a, campos[..|campos| - 1], valores[..|valores| - 1]),
             campos[|campos| - 1], valores[|valores| - 1])
  }

  /** One more assignment at the end of the `SET` list is one more `Put` on the row. */
  lemma SetClauseAppend(a: Aluno, campos: seq<Field>, valores: seq<string>, f: Field, v: string)
    requires |campos| == |valores|
    ensures SetClause(a, campos + [f], valores + [v]) == Put(SetClause(a, campos, valores), f, v)
  {
    assert (campos + [f])[..|campos|] == campos;
    assert (valores + [v])[..|valores|] == valores;
  }

  /** The fields among the first `k` of `Fields` that `body` sends, in that order: the `campos` of the UPDATE. */
  function Sent(body: Body, k: nat): seq<Field>
    requires k <= |Fields|
  {
    if k == 0 then [] else Sent(body, k - 1) + if Key(Fields[k - 1]) in body then [Fields[k - 1]] else []
  }

  /** The UPDATE has no assignment exactly when the body sends none of the four fields. */
  lemma NothingSent(body: Body)
    ensures Sent(body, |Fields|) == [] <==> forall f :: Key(f) !in body
  {
    SentInOrder(body, |Fields|);
    if Sent(body, |Fields|) != [] {
      assert Sent(body, |Fields|)[0] in Sent(body, |Fields|);
    }
  }

  /** The stripped values of the fields `Sent` lists, in the same order: the `valores` of the UPDATE. */
  function SentValues(body: Body, k: nat): seq<string>
    requires k <= |Fields|
  {
    if k == 0 then []
    else SentValues(body, k - 1) + if Key(Fields[k - 1]) in body then [Strip(body[Key(Fields[k - 1])])] else []
  }

  /** Each value lines up with its field, and is the field's value in the body, stripped. */
  lemma {:induction false} SentValuesMatch(body: Body, k: nat)
    requires k <= |Fields|
    ensures |SentValues(body, k)| == |Sent(body, k)|
    ensures forall i :: 0 <= i < |Sent(body, k)| ==>
              Key(Sent(body, k)[i]) in body && SentValues(body, k)[i] == Strip(body[Key(Sent(body, k)[i])])
  {
    if k > 0 {
      SentValuesMatch(body, k - 1);
    }
  }

  /** `Sent` lists each field the body sends exactly once, and no other, in the order of `Fields`. */
  lemma {:induction false} SentInOrder(body: Body, k: nat)
    requires k <= |Fields|
    ensures forall f :: f in Sent(body, k) <==> Pos(f) < k && Key(f) in body
    ensures forall i :: 0 <= i < |Sent(body, k)| ==> Pos(Sent(body, k)[i]) < k
    ensures forall i, j :: 0 <= i < j < |Sent(body, k)| ==> Pos(Sent(body, k)[i]) < Pos(Sent(body, k)[j])
  {
    if k > 0 {
      SentInOrder(body, k - 1);
      var f, fs := Fields[k - 1], Sent(body, k - 1);
      assert Pos(f) == k - 1;
      if Key(f) in body {
        assert Sent(body, k) == fs + [f];
        forall g ensures g in Sent(body, k) <==> Pos(g) < k && Key(g) in body {
          if g != f { assert Pos(g) != k - 1; }
        }
      } else {
        assert Sent(body, k) == fs;
        forall g ensures g in Sent(body, k) <==> Pos(g) < k && Key(g) in body {
          if g != f { assert Pos(g) != k - 1; }
        }
      }
    }
  }

  /** Applying the assignments for the first `k` fields sets each of those the body sends to its stripped value. */
  lemma {:induction false} SentApplied(a: Aluno, body: Body, k: nat)
    requires k <= |Fields|
    ensures |SentValues(body, k)| == |Sent(body, k)|
    ensures forall f :: Get(SetClause(a, Sent(body, k), SentValues(body, k)), f)
                        == if Pos(f) < k && Key(f) in body then Strip(body[Key(f)]) else Get(a, f)
  {
    SentValuesMatch(body, k);
    if k > 0 {
      SentApplied(a, body, k - 1);
      var f := Fields[k - 1];
      assert Pos(f) == k - 1;
      var fs, vs := Sent(body, k - 1), SentValues(body, k - 1);
      var v := if Key(f) in body then Strip(body[Key(f)]) else "";
      if Key(f) in body {
        assert Sent(body, k) == fs + [f] && SentValues(body, k) == vs + [v];
        SetClauseAppend(a, fs, vs, f, v);
      } else {
        assert Sent(body, k) == fs && SentValues(body, k) == vs;
      }
      forall g
        ensures Get(SetClause(a, Sent(body, k), SentValues(body, k)), g)
                == if Pos(g) < k && Key(g) in body then Strip(body[Key(g)]) else Get(a, g)
      {
        if g != f {
          assert Pos(g) != k - 1;
        }
      }
    }
  }

  /** The whole `SET` list: one assignment per field the body sends, in the order of `Fields`, each with the
      field's stripped value; it is empty exactly when the body sends no field, and applied it gives `Patched`. */
  lemma SentIsPatch(a: Aluno, body: Body)
    ensures var fs, vs := Sent(body, |Fields|), SentValues(body, |Fields|);
            && (forall f :: f in fs <==> Key(f) in body)
            && (forall i, j :: 0 <= i < j < |fs| ==> Pos(fs[i]) < Pos(fs[j]))
            && |vs| == |fs|
            && (forall i :: 0 <= i < |fs| ==> Key(fs[i]) in body && vs[i] == Strip(body[Key(fs[i])]))
            && (fs == [] <==> forall f :: Key(f) !in body)
            && SetClause(a, fs, vs) == Patched(a, body)
  {
    SentInOrder(body, |Fields|);
    SentValuesMatch(body, |Fields|);
    NothingSent(body);
    SentApplied(a, body, |Fields|);
    SameRow(SetClause(a, Sent(body, |Fields|), SentValues(body, |Fields|)), Patched(a, body));
  }

  /** `LIMIT limit OFFSET offset` over the rows in storage order. */
  function Window<T>(rows: seq<T>, offset: nat, limit: nat): (w: seq<T>)
    ensures |w| <= limit
    ensures |w| == if offset >= |rows| then 0 else if limit < |rows| - offset then limit else |rows| - offset
    ensures forall k :: 0 <= k < |w| ==> w[k] == rows[offset + k]
  {
    if offset >= |rows| then []
    else if limit < |rows| - offset then rows[offset..offset + limit]
    else rows[offset..]
  }

  /** The largest LIMIT or OFFSET MySQL accepts: an unsigned 64-bit value, 2^64 - 1. */
  const MaxLimit: int := 18446744073709551615

  /** `listar_alunos` (alunos.py:70-108); a missing or non-integer argument is `None` and takes its default. */
  function Listar(rows: seq<Aluno>, page: Option<int>, perPage: Option<int>): (r: Outcome<Listing>)
    ensures var p, n := page.GetOr(1), perPage.GetOr(10);
            && (r.Aborted? <==> n < 0 || (p - 1) * n < 0 || n > MaxLimit || (p - 1) * n > MaxLimit)
            && (r.Aborted? ==> r.reason == DatabaseError)
            && (r.Done? ==>
                  && r.value.total == |rows|
                  && r.value.page == p && r.value.perPage == n
                  && |r.value.alunos| == (if (p - 1) * n >= |rows| then 0
                                           else if n < |rows| - (p - 1) * n then n else |rows| - (p - 1) * n)
                  && forall k :: 0 <= k < |r.value.alunos| ==>
                       0 <= (p - 1) * n + k < |rows| && r.value.alunos[k] == rows[(p - 1) * n + k])
  {
    var p, n := page.GetOr(1), perPage.GetOr(10);
    var offset := (p - 1) * n;
    // MySQL refuses a LIMIT or OFFSET outside 0..2^64-1, the negative ones with a syntax error
    if n < 0 || offset < 0 || n > MaxLimit || offset > MaxLimit then Aborted(DatabaseError)
    else Done(Listing(Window(rows, offset, n), |rows|, p, n))
  }

  /** `obter_aluno` (alunos.py:158-187). */
  function Obter(rows: seq<Aluno>, id: int): (r: Outcome<Aluno>)
    ensures r.Done? ==> r.value in rows && r.value.id == id
    ensures r.Aborted? <==> forall a :: a in rows ==> a.id != id
    ensures r.Aborted? ==> r.reason == NotFound
  {
    match IndexOfId(rows, id)
    case None => Aborted(NotFound)
    case Some(i) => Done(rows[i])
  }

  /** `cadastrar_aluno` (alunos.py:114-153) as a transition of the table and its counter: the new id, or the abort. */
  function CadastrarSpec(rows: seq<Aluno>, nextId: nat, data: Option<Body>): (r: (seq<Aluno>, nat, Outcome<nat>))
    ensures r.2.Aborted? ==> r.0 == rows && r.1 == nextId && Code(r.2.reason) == 400
    ensures r.2.Aborted? && r.2.reason != AlreadyRegistered <==> Validar(data, Create).Some?
    ensures r.2.Aborted? ==> r.2.reason == AlreadyRegistered || r.2.reason == Validar(data, Create).value
    ensures r.2.Done? ==>
              && AllFilled(data.value) && !Clash(rows, NewRecord(nextId, data.value))
              && r == (rows + [NewRecord(nextId, data.value)], nextId + 1, Done(nextId))
    ensures r.2 == Aborted(AlreadyRegistered) <==>
              Validar(data, Create).None? && AllFilled(data.value) && Clash(rows, NewRecord(nextId, data.value))
  {
    match Validar(data, Create)
    case Some(reason) => (rows, nextId, Aborted(reason))
    case None =>
      var a := NewRecord(nextId, data.value);
      if Clash(rows, a) then (rows, nextId, Aborted(AlreadyRegistered))
      else (rows + [a], nextId + 1, Done(nextId))
  }

  /** Row `i` patched with `body` would repeat the enrolment number or e-mail of another row: the UPDATE's IntegrityError. */
  predicate Collides(rows: seq<Aluno>, i: nat, body: Body)
    requires i < |rows|
  {
    Clash(rows[..i] + rows[i + 1..], Patched(rows[i], body))
  }

  /** `editar_aluno` (alunos.py:193-243) as a transition of the table: only the row with the id changes, and only in the fields sent. */
  function EditarSpec(rows: seq<Aluno>, id: int, data: Option<Body>): (r: (seq<Aluno>, Outcome<()>))
    ensures r.1.Aborted? ==> r.0 == rows
  {
    match Validar(data, Update)
    case Some(reason) => (rows, Aborted(reason))
    case None =>
      match IndexOfId(rows, id)
      case None => (rows, Aborted(NotFound))
      case Some(i) =>
        if forall f :: Key(f) !in data.value then (rows, Aborted(NothingToUpdate))
        else if Collides(rows, i, data.value) then (rows, Aborted(AlreadyRegistered))
        else (rows[i := Patched(rows[i], data.value)], Done(()))
  }

  /** Every outcome of `editar_aluno`: validation first, then 404 for a missing id, then 400 for a body with
      none of the four fields, then 400 for a collision; otherwise only the row with the id changes, to the patched row. */
  lemma EditarOutcomes(rows: seq<Aluno>, id: int, data: Option<Body>)
    ensures |EditarSpec(rows, id, data).0| == |rows|
    ensures forall j :: 0 <= j < |rows| && rows[j].id != id ==> EditarSpec(rows, id, data).0[j] == rows[j]
    ensures Validar(data, Update).Some? ==> EditarSpec(rows, id, data).1 == Aborted(Validar(data, Update).value)
    ensures EditarSpec(rows, id, data).1 == Aborted(NotFound) <==> Validar(data, Update).None? && IndexOfId(rows, id).None?
    ensures EditarSpec(rows, id, data).1 == Aborted(NothingToUpdate) <==>
              Validar(data, Update).None? && IndexOfId(rows, id).Some? && forall f :: Key(f) !in data.value
    ensures EditarSpec(rows, id, data).1 == Aborted(AlreadyRegistered) <==>
              && Validar(data, Update).None? && IndexOfId(rows, id).Some? && !(forall f :: Key(f) !in data.value)
              && Collides(rows, IndexOfId(rows, id).value, data.value)
    ensures EditarSpec(rows, id, data).1.Done? <==>
              && Validar(data, Update).None? && IndexOfId(rows, id).Some? && !(forall f :: Key(f) !in data.value)
              && !Collides(rows, IndexOfId(rows, id).value, data.value)
    ensures EditarSpec(rows, id, data).1.Done? ==>
              var i := IndexOfId(rows, id).value;
              EditarSpec(rows, id, data).0 == rows[i := Patched(rows[i], data.value)]
  {
  }

  /** `excluir_aluno` (alunos.py:249-277) as a transition of the table: 404 for an unknown id, else that row is cut out. */
  function ExcluirSpec(rows: seq<Aluno>, id: int): (r: (seq<Aluno>, Outcome<()>))
    ensures r.1 == Done(()) || r.1 == Aborted(NotFound)
    ensures r.1.Aborted? <==> forall j :: 0 <= j < |rows| ==> rows[j].id != id
    ensures r.1.Aborted? ==> r.0 == rows
    ensures r.1.Done? ==>
              && |r.0| == |rows| - 1
              && var i := IndexOfId(rows, id).value;
                 rows[i].id == id && r.0 == rows[..i] + rows[i + 1..]
  {
    match IndexOfId(rows, id)
    case None => (rows, Aborted(NotFound))
    case Some(i) => (rows[..i] + rows[i + 1..], Done(()))
  }

  // ---------------------------------------------------------------------------
  // Properties of the row-level operations

  /** A record built from a body that passed the create validation satisfies every format rule. */
  lemma NewRecordWellFormed(id: nat, data: Body)
    requires Validar(Some(data), Create).None?
    ensures AllFilled(data)
    ensures var a := NewRecord(id, data);
            && a.id == id
            && a.nome != [] && a.curso != []
            && IsDigits(a.matricula) && a.matricula == data["matricula"]
            && '@' in a.email
            && forall k :: 0 <= k < |a.email| ==> !('A' <= a.email[k] <= 'Z')
  {
    DigitsStripped(data["matricula"]);
    StripKeeps(data["email"], '@');
    LowerKeeps(Strip(data["email"]), '@');
  }

  /** A row patched from a body that passed the update validation keeps the format rules. */
  lemma PatchedWellFormed(a: Aluno, data: Body)
    requires RowOk(a)
    requires Validar(Some(data), Update).None?
    ensures RowOk(Patched(a, data))
  {
    if "matricula" in data { DigitsStripped(data["matricula"]); }
    if "email" in data { StripKeeps(data["email"], '@'); }
  }

  lemma NewRecordRowOk(id: nat, data: Body)
    requires Validar(Some(data), Create).None?
    ensures AllFilled(data) && NewRecord(id, data).id == id && RowOk(NewRecord(id, data))
  {
    NewRecordWellFormed(id, data);
  }

  /** Appending a well-formed row under the next id that clashes with no row keeps the table consistent. */
  lemma AppendKeepsConsistent(rows: seq<Aluno>, nextId: nat, a: Aluno)
    requires Consistent(rows, nextId)
    requires a.id == nextId && RowOk(a) && !Clash(rows, a)
    ensures Consistent(rows + [a], nextId + 1)
  {
    var rows' := rows + [a];
    assert forall k :: 0 <= k < |rows| ==> rows'[k] == rows[k];
    assert rows'[|rows|] == a;
  }

  /** Replacing row `i` by a well-formed row with the same id that clashes with no other row keeps the table consistent. */
  lemma ReplaceKeepsConsistent(rows: seq<Aluno>, nextId: nat, i: nat, b: Aluno)
    requires Consistent(rows, nextId) && i < |rows|
    requires b.id == rows[i].id && RowOk(b) && !Clash(rows[..i] + rows[i + 1..], b)
    ensures Consistent(rows[i := b], nextId)
  {
    var others := rows[..i] + rows[i + 1..];
    forall j | 0 <= j < |rows| && j != i
      ensures rows[j].matricula != b.matricula && rows[j].email != b.email
    {
      if j < i { assert others[j] == rows[j]; } else { assert others[j - 1] == rows[j]; }
    }
  }

  /** Cutting out the row at `i` keeps the table consistent and removes exactly the rows with its id. */
  lemma CutKeepsConsistent(rows: seq<Aluno>, nextId: nat, i: nat)
    requires Consistent(rows, nextId) && i < |rows|
    ensures Consistent(rows[..i] + rows[i + 1..], nextId)
    ensures forall a :: a in rows[..i] + rows[i + 1..] <==> a in rows && a.id != rows[i].id
  {
    var rest := rows[..i] + rows[i + 1..];
    assert forall k :: 0 <= k < |rest| ==> rest[k] == rows[if k < i then k else k + 1];
    forall k, l | 0 <= k < l < |rest|
      ensures rest[k].id < rest[l].id
      ensures rest[k].matricula != rest[l].matricula && rest[k].email != rest[l].email
    {
      var k', l' := if k < i then k else k + 1, if l < i then l else l + 1;
      assert k' < l' && rest[k] == rows[k'] && rest[l] == rows[l'];
    }
    forall a | a in rows && a.id != rows[i].id ensures a in rest {
      var k :| 0 <= k < |rows| && rows[k] == a;
      if k < i { assert rest[k] == a; } else { assert rest[k - 1] == a; }
    }
  }

  /** `cadastrar_aluno` keeps the table invariant, whatever its outcome. */
  lemma CadastrarKeepsConsistent(rows: seq<Aluno>, nextId: nat, data: Option<Body>)
    requires Consistent(rows, nextId)
    ensures var r := CadastrarSpec(rows, nextId, data); Consistent(r.0, r.1)
  {
    if CadastrarSpec(rows, nextId, data).2.Done? {
      NewRecordRowOk(nextId, data.value);
      AppendKeepsConsistent(rows, nextId, NewRecord(nextId, data.value));
    }
  }

  /** A body that passes validation is stored unless its row collides with a stored one. */
  lemma CadastrarSpecApplies(rows: seq<Aluno>, nextId: nat, data: Option<Body>)
    requires Validar(data, Create).None?
    ensures var a := NewRecord(nextId, data.value);
            CadastrarSpec(rows, nextId, data)
              == if Clash(rows, a) then (rows, nextId, Aborted(AlreadyRegistered)) else (rows + [a], nextId + 1, Done(nextId))
  {
  }

  /** `editar_aluno` keeps the table invariant, whatever its outcome. */
  lemma EditarKeepsConsistent(rows: seq<Aluno>, nextId: nat, id: int, data: Option<Body>)
    requires Consistent(rows, nextId)
    ensures Consistent(EditarSpec(rows, id, data).0, nextId)
  {
    EditarOutcomes(rows, id, data);
    if EditarSpec(rows, id, data).1.Done? {
      var i := IndexOfId(rows, id).value;
      PatchedWellFormed(rows[i], data.value);
      ReplaceKeepsConsistent(rows, nextId, i, Patched(rows[i], data.value));
    }
  }

  /** A valid update of an existing row that names some field comes down to the collision test, and when
      nothing collides the patched table is still consistent. */
  lemma EditarSpecApplies(rows: seq<Aluno>, nextId: nat, id: int, data: Option<Body>, i: nat)
    requires Consistent(rows, nextId)
    requires Validar(data, Update).None? && IndexOfId(rows, id) == Some(i)
    requires !(forall f :: Key(f) !in data.value)
    ensures var b := Patched(rows[i], data.value);
            && EditarSpec(rows, id, data)
                 == (if Collides(rows, i, data.value) then (rows, Aborted(AlreadyRegistered)) else (rows[i := b], Done(())))
            && (!Collides(rows, i, data.value) ==> Consistent(rows[i := b], nextId))
  {
    var b := Patched(rows[i], data.value);
    if !Collides(rows, i, data.value) {
      PatchedWellFormed(rows[i], data.value);
      ReplaceKeepsConsistent(rows, nextId, i, b);
    }
  }

  /** `excluir_aluno` keeps the table invariant and removes the row with the id and no other. */
  lemma ExcluirKeepsConsistent(rows: seq<Aluno>, nextId: nat, id: int)
    requires Consistent(rows, nextId)
    ensures Consistent(ExcluirSpec(rows, id).0, nextId)
    ensures forall a :: a in ExcluirSpec(rows, id).0 <==> a in rows && a.id != id
  {
    if ExcluirSpec(rows, id).1.Done? {
      CutKeepsConsistent(rows, nextId, IndexOfId(rows, id).value);
    }
  }

  /** The id `cadastrar_aluno` returns was free before, and `obter_aluno` reads the stored row back under it. */
  lemma CreatedThenRead(rows: seq<Aluno>, nextId: nat, data: Option<Body>)
    requires Consistent(rows, nextId)
    requires CadastrarSpec(rows, nextId, data).2.Done?
    ensures var r := CadastrarSpec(rows, nextId, data);
            && Obter(rows, r.2.value) == Aborted(NotFound)
            && Obter(r.0, r.2.value) == Done(NewRecord(nextId, data.value))
  {
    var rows' := CadastrarSpec(rows, nextId, data).0;
    assert rows'[|rows|] == NewRecord(nextId, data.value);
    assert forall j :: 0 <= j < |rows| ==> rows'[j].id < nextId;
  }

  /** After a successful `editar_aluno`, `obter_aluno` reads back the old row patched with the body. */
  lemma EditedThenRead(rows: seq<Aluno>, nextId: nat, id: int, data: Option<Body>)
    requires Consistent(rows, nextId)
    requires EditarSpec(rows, id, data).1.Done?
    ensures Obter(rows, id).Done?
    ensures Obter(EditarSpec(rows, id, data).0, id) == Done(Patched(Obter(rows, id).value, data.value))
  {
    EditarOutcomes(rows, id, data);
    var i := IndexOfId(rows, id).value;
    var rows' := EditarSpec(rows, id, data).0;
    assert rows'[i] == Patched(rows[i], data.value);
    assert forall j :: 0 <= j < i ==> rows'[j] == rows[j];
  }

  /** After `excluir_aluno`, whatever its outcome, `obter_aluno` finds no row with the id. */
  lemma DeletedThenRead(rows: seq<Aluno>, nextId: nat, id: int)
    requires Consistent(rows, nextId)
    ensures Obter(ExcluirSpec(rows, id).0, id) == Aborted(NotFound)
  {
    ExcluirKeepsConsistent(rows, nextId, id);
  }

  /** Pages 1..count of size perPage, concatenated. */
  function Pages<T>(rows: seq<T>, perPage: nat, count: nat): seq<T> {
    if count == 0 then [] else Pages(rows, perPage, count - 1) + Window(rows, (count - 1) * perPage, perPage)
  }

  /** Rows `0..n` of the table, or all of it when it is shorter. */
  function Upto<T>(rows: seq<T>, n: nat): (r: seq<T>)
    ensures |r| == if n < |rows| then n else |rows|
    ensures r <= rows
  {
    rows[..if n < |rows| then n else |rows|]
  }

  /** The window at offset `o` carries on exactly where the first `o` rows stop. */
  lemma WindowContinues<T>(rows: seq<T>, o: nat, n: nat)
    ensures Upto(rows, o) + Window(rows, o, n) == Upto(rows, o + n)
  {
    var a := Upto(rows, o) + Window(rows, o, n);
    var b := Upto(rows, o + n);
    assert |a| == |b|;
    forall k | 0 <= k < |a|
      ensures a[k] == b[k]
    {
      if k >= |Upto(rows, o)| {
        assert a[k] == Window(rows, o, n)[k - o];
      }
    }
  }

  /** Walking the pages from 1 on lists the table in storage order, each row once. */
  lemma {:induction false} PagesArePrefix<T>(rows: seq<T>, perPage: nat, count: nat)
    ensures Pages(rows, perPage, count) == Upto(rows, count * perPage)
  {
    if count > 0 {
      PagesArePrefix(rows, perPage, count - 1);
      var o := (count - 1) * perPage;
      assert count * perPage == o + perPage;
      WindowContinues(rows, o, perPage);
    }
  }

  /** Row `i` is listed at position `i % perPage` of page `i / perPage + 1`. */
  lemma RowOnItsPage<T>(rows: seq<T>, perPage: nat, i: nat)
    requires perPage > 0 && i < |rows|
    ensures var w := Window(rows, (i / perPage) * perPage, perPage);
            i % perPage < |w| && w[i % perPage] == rows[i]
  {
    var o := (i / perPage) * perPage;
    assert i == o + i % perPage;
  }

  // ---------------------------------------------------------------------------
  // The table as the routes update it

  class Registry {
    var rows: seq<Aluno>
    var nextId: nat

    ghost predicate Valid()
      reads this
    {
      Consistent(rows, nextId)
    }

    /** An empty table whose AUTO_INCREMENT starts at 1. */
    constructor ()
      ensures Valid() && rows == [] && nextId == 1
    {
      rows := [];
      nextId := 1;
    }

    /** `cadastrar_aluno` (alunos.py:114-153): the INSERT of the validated, normalised row. */
    method Cadastrar(data: Option<Body>) returns (r: Outcome<nat>)
      requires Valid()
      modifies this
      ensures Valid()
      ensures (rows, nextId, r) == CadastrarSpec(old(rows), old(nextId), data)
    {
      var invalid := Validar(data, Create);
      if invalid.Some? {
        return Aborted(invalid.value);
      }
      var body := data.value;
      CadastrarKeepsConsistent(rows, nextId, data);
      CadastrarSpecApplies(rows, nextId, data);
      NewRecordRowOk(nextId, body);
      var a := NewRecord(nextId, body);
      if Clash(rows, a) {
        return Aborted(AlreadyRegistered);
      }
      rows := rows + [a];
      r := Done(nextId);
      nextId := nextId + 1;
    }

    /** The loop of `editar_aluno` (alunos.py:208-215) that collects the `SET` assignments, one per field of
        the body in the order nome, matricula, curso, email; applied to the row they give the patched row. */
    static method Assignments(a: Aluno, body: Body) returns (campos: seq<Field>, valores: seq<string>)
      ensures forall f :: f in campos <==> Key(f) in body
      ensures forall i, j :: 0 <= i < j < |campos| ==> Pos(campos[i]) < Pos(campos[j])
      ensures |valores| == |campos|
      ensures forall i :: 0 <= i < |campos| ==> Key(campos[i]) in body && valores[i] == Strip(body[Key(campos[i])])
      ensures campos == [] <==> forall f :: Key(f) !in body
      ensures SetClause(a, campos, valores) == Patched(a, body)
    {
      campos, valores := [], [];
      for k := 0 to |Fields|
        invariant |campos| == |valores|
        invariant campos == Sent(body, k)
        invariant valores == SentValues(body, k)
      {
        var f := Fields[k];
        if Key(f) in body {
          campos := campos + [f];
          valores := valores + [Strip(body[Key(f)])];
        }
      }
      SentIsPatch(a, body);
    }

    /** `editar_aluno` (alunos.py:193-243): validation, the lookup of the id, then the dynamic UPDATE. */
    method Editar(id: int, data: Option<Body>) returns (r: Outcome<()>)
      requires Valid()
      modifies this
      ensures Valid() && nextId == old(nextId)
      ensures (rows, r) == EditarSpec(old(rows), id, data)
    {
      var invalid := Validar(data, Update);
      if invalid.Some? {
        return Aborted(invalid.value);
      }
      var found := IndexOfId(rows, id);
      if found.None? {
        return Aborted(NotFound);
      }
      r := ApplyUpdate(id, data, found.value);
    }

    /** The dynamic UPDATE of `editar_aluno` (alunos.py:207-225, 232-234) for the row at index `i`, which has
        the id: the `SET` list, the 400 for an empty one, and the UPDATE unless it breaks a UNIQUE key. */
    method ApplyUpdate(id: int, data: Option<Body>, i: nat) returns (r: Outcome<()>)
      requires Valid()
      requires Validar(data, Update).None? && IndexOfId(rows, id) == Some(i)
      modifies this
      ensures Valid() && nextId == old(nextId)
      ensures (rows, r) == EditarSpec(old(rows), id, data)
    {
      var body := data.value;
      var campos, valores := Assignments(rows[i], body);
      if campos == [] {
        return Aborted(NothingToUpdate);
      }
      var updated := SetClause(rows[i], campos, valores);
      EditarSpecApplies(rows, nextId, id, data, i);
      if Clash(rows[..i] + rows[i + 1..], updated) {
        return Aborted(AlreadyRegistered);
      }
      rows := rows[i := updated];
      r := Done(());
    }

    /** `excluir_aluno` (alunos.py:249-277): the DELETE of the row with the id. */
    method Excluir(id: int) returns (r: Outcome<()>)
      requires Valid()
      modifies this
      ensures Valid() && nextId == old(nextId)
      ensures (rows, r) == ExcluirSpec(old(rows), id)
    {
      var found := IndexOfId(rows, id);
      if found.None? {
        return Aborted(NotFound);
      }
      var i := found.value;
      CutKeepsConsistent(rows, nextId, i);
      rows := rows[..i] + rows[i + 1..];
      r := Done(());
    }
  }
}
