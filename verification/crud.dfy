/** The record service: create, list, edit and delete of user records, each one a
    read of the whole collection from the store, checks in a fixed order, and a
    write of the whole collection back. */
module Crud {
  import opened JsText
  import opened Users
  import opened EmailPattern
  import opened Storage

  /** The errors the service raises, one per message of the source. */
  datatype CrudError =
    | Required           // name or email missing
    | InvalidEmail       // email does not match the pattern
    | EmailInUse         // on create: some record already has the email
    | NotFound           // no record has the id
    | EmailInUseByOther  // on edit: a record with another id has the email

  /** An operation either returns a value or raises one of the errors above. */
  datatype Result<T> = Ok(value: T) | Err(error: CrudError)

  /** The argument checks that create and edit share, in their order: both
      arguments present (as given, before any trimming), then the email pattern. */
  function ValidateInput(nome: string, email: string): (r: Option<CrudError>)
    ensures r == Some(Required) <==> nome == [] || email == []
    ensures r == Some(InvalidEmail) <==> nome != [] && email != [] && !EmailShape(email)
    ensures r == None <==> nome != [] && EmailShape(email)
  {
    if nome == [] || email == [] then Some(Required)
    else if ValidarEmail(email) then
      None
    else Some(InvalidEmail)
  }

  /** The presence check looks at the argument as given: a name of white space
      alone passes it, and the record then stores the empty name. */
  lemma BlankNameAccepted(nome: string, email: string)
    requires nome != [] && forall k :: 0 <= k < |nome| ==> IsSpace(nome[k])
    requires EmailShape(email)
    ensures ValidateInput(nome, email) == None && Trim(nome) == []
  {
    var r := Trim(nome);
    var a :| SpaceAround(nome, r, a);
  }

  /** Some record of `us` has an email colliding with `email`. */
  predicate EmailTaken(us: seq<User>, email: string) {
    exists k :: 0 <= k < |us| && SameEmail(us[k].email, email)
  }

  /** Some record of `us` whose id is not `id` has an email colliding with `email`. */
  predicate TakenByOther(us: seq<User>, id: int, email: string) {
    exists k :: 0 <= k < |us| && us[k].id != id && SameEmail(us[k].email, email)
  }

  /** The records of `us` whose id is not `id`, in their order. */
  function RemoveId(us: seq<User>, id: int): (r: seq<User>)
    ensures |r| <= |us|
    ensures forall k :: 0 <= k < |r| ==> r[k].id != id
    ensures |r| == |us| <==> forall k :: 0 <= k < |us| ==> us[k].id != id
    ensures (forall k :: 0 <= k < |us| ==> us[k].id != id) ==> r == us
  {
    if us == [] then []
    else
      assert us == [us[0]] + us[1..];
      if us[0].id == id then RemoveId(us[1..], id)
      else [us[0]] + RemoveId(us[1..], id)
  }

  /** Removal works piece by piece: the survivors of a concatenation are the
      survivors of each part, in order. */
  lemma {:induction false} RemoveIdAppend(a: seq<User>, b: seq<User>, id: int)
    ensures RemoveId(a + b, id) == RemoveId(a, id) + RemoveId(b, id)
    decreases |a|
  {
    if a == [] {
      assert a + b == b;
    } else {
      var c := a + b;
      assert c[0] == a[0] && c[1..] == a[1..] + b;
      RemoveIdAppend(a[1..], b, id);
      if a[0].id == id {
        calc {
          RemoveId(c, id);
          RemoveId(a[1..] + b, id);
          RemoveId(a[1..], id) + RemoveId(b, id);
          RemoveId(a, id) + RemoveId(b, id);
        }
      } else {
        calc {
          RemoveId(c, id);
          [a[0]] + RemoveId(a[1..] + b, id);
          [a[0]] + (RemoveId(a[1..], id) + RemoveId(b, id));
          ([a[0]] + RemoveId(a[1..], id)) + RemoveId(b, id);
          RemoveId(a, id) + RemoveId(b, id);
        }
      }
    }
  }

  /** The survivors are exactly the records of `us` without the id. */
  lemma {:induction false} RemoveIdMembers(us: seq<User>, id: int)
    ensures forall u :: u in RemoveId(us, id) <==> u in us && u.id != id
    decreases |us|
  {
    if us != [] {
      RemoveIdMembers(us[1..], id);
      assert us == [us[0]] + us[1..];
    }
  }

  /** Removal keeps the emails distinct. */
  lemma {:induction false} RemoveKeepsDistinct(us: seq<User>, id: int)
    requires EmailsDistinct(us)
    ensures EmailsDistinct(RemoveId(us, id))
    decreases |us|
  {
    if us != [] {
      var tail := us[1..];
      assert EmailsDistinct(tail) by {
        forall i, j | 0 <= i < j < |tail|
          ensures !SameEmail(tail[i].email, tail[j].email)
        {
          assert tail[i] == us[i + 1] && tail[j] == us[j + 1];
        }
      }
      RemoveKeepsDistinct(tail, id);
      var rest := RemoveId(tail, id);
      RemoveIdMembers(tail, id);
      if us[0].id != id {
        forall k | 0 <= k < |rest| ensures !SameEmail(rest[k].email, us[0].email) {
          assert rest[k] in tail;
          var m :| 0 <= m < |tail| && tail[m] == rest[k];
          assert tail[m] == us[m + 1];
        }
        assert RemoveId(us, id) == [us[0]] + rest;
        forall i, j | 0 <= i < j < |[us[0]] + rest|
          ensures !SameEmail(([us[0]] + rest)[i].email, ([us[0]] + rest)[j].email)
        {
          if i > 0 {
            assert ([us[0]] + rest)[i] == rest[i - 1] && ([us[0]] + rest)[j] == rest[j - 1];
          }
        }
      }
    }
  }

  /** After a removal no record with that id is left to be found. */
  lemma NothingFoundAfterRemove(us: seq<User>, id: int)
    ensures FindIndexById(RemoveId(us, id), id) == -1
  {
    var r := RemoveId(us, id);
    forall k | 0 <= k < |r| ensures r[k].id != id {
      assert r[k] in r;
    }
  }

  /** The record create appends keeps the emails distinct: what it stores is the
      checked email, since trimming leaves a valid email as it is. */
  lemma CreatedKeepsDistinct(us: seq<User>, email: string, novo: User)
    requires EmailsDistinct(us) && NoSpace(email) && !EmailTaken(us, email)
    requires novo.email == Trim(email)
    ensures EmailsDistinct(us + [novo])
  {
    AppendKeepsDistinct(us, novo);
  }

  /** The record edit writes at the position of `id` keeps the emails distinct,
      provided no other record shares that id. */
  lemma EditedKeepsDistinct(us: seq<User>, i: int, email: string, editado: User)
    requires EmailsDistinct(us) && IdsUnique(us)
    requires 0 <= i < |us| && NoSpace(email) && !TakenByOther(us, us[i].id, email)
    requires editado.email == Trim(email)
    ensures EmailsDistinct(us[i := editado])
  {
    ReplaceKeepsDistinct(us, i, editado);
  }

  /** Why the edit invariant needs unique ids: the conflict check skips every record
      carrying the edited id, but only the first of them is rewritten, so giving
      it the email of a second record with the same id passes the check and
      leaves two colliding emails. */
  lemma SharedIdDefeatsConflictCheck()
    ensures var a := User(1, "A", "a@x.io", "t0", None);
            var b := User(1, "B", "b@x.io", "t0", None);
            var editado := a.(email := "b@x.io", dataAtualizacao := Some("t1"));
            EmailsDistinct([a, b]) && !IdsUnique([a, b]) && FindIndexById([a, b], 1) == 0 &&
            !TakenByOther([a, b], 1, "b@x.io") &&
            !EmailsDistinct([a, b][0 := editado])
  {
    var a := User(1, "A", "a@x.io", "t0", None);
    var b := User(1, "B", "b@x.io", "t0", None);
    assert ToLowerAscii(a.email)[0] != ToLowerAscii(b.email)[0];
    assert EmailsDistinct([a, b]);
    assert [a, b][0].id == [a, b][1].id;
    assert !IdsUnique([a, b]);
    var e := "b@x.io";
    assert FindIndexById([a, b], 1) == 0;
    assert !TakenByOther([a, b], 1, e);
    var editado := a.(email := e, dataAtualizacao := Some("t1"));
    var vs := [a, b][0 := editado];
    assert vs[0] == editado && vs[1] == b;
    assert SameEmail(vs[0].email, vs[1].email);
    assert !EmailsDistinct(vs);
  }

  /** Create: checks the arguments, then that no stored email collides, and
      appends a record stamped with the given id and creation time. */
  method CriarUsuario(store: UserStore, nome: string, email: string, id: int,
                      agora: string, hostRejects: bool)
    returns (r: Result<Option<User>>)
    modifies store
    ensures ValidateInput(nome, email).Some? ==> r == Err(ValidateInput(nome, email).value)
    ensures ValidateInput(nome, email).None? && EmailTaken(Loaded(old(store.slot)), email) ==>
              r == Err(EmailInUse)
    ensures r.Err? ==> store.slot == old(store.slot)
    ensures r.Ok? <==> ValidateInput(nome, email).None? && !EmailTaken(Loaded(old(store.slot)), email)
    ensures r.Ok? ==>
              var novo := User(id, Trim(nome), Trim(email), agora, None);
              if hostRejects then r.value == None && store.slot == old(store.slot)
              else r.value == Some(novo) && store.slot == Parsed(Loaded(old(store.slot)) + [novo])
    ensures r.Ok? && EmailsDistinct(Loaded(old(store.slot))) ==> EmailsDistinct(Loaded(store.slot))
  {
    var invalid := ValidateInput(nome, email);
    if invalid.Some? {
      return Err(invalid.value);
    }
    var usuarios := store.ObterUsuarios();
    if EmailTaken(usuarios, email) {
      return Err(EmailInUse);
    }
    var novo := User(id, Trim(nome), Trim(email), agora, None);
    if EmailsDistinct(usuarios) {
      ValidEmailHasNoSpace(email);
      CreatedKeepsDistinct(usuarios, email, novo);
    }
    usuarios := usuarios + [novo];
    var sucesso := store.SalvarUsuarios(usuarios, hostRejects);
    r := Ok(if sucesso then Some(novo) else None);
  }

  /** List: the stored collection as it is. */
  method ListarUsuarios(store: UserStore) returns (us: seq<User>)
    ensures store.slot.Parsed? ==> us == store.slot.users
    ensures !store.slot.Parsed? ==> us == []
  {
    us := store.ObterUsuarios();
  }

  /** Edit: checks the arguments, then that the id exists, then that no record
      with another id has the email, and rewrites the first record with the id. */
  method EditarUsuario(store: UserStore, id: int, novoNome: string, novoEmail: string,
                       agora: string, hostRejects: bool)
    returns (r: Result<Option<User>>)
    modifies store
    ensures ValidateInput(novoNome, novoEmail).Some? ==>
              r == Err(ValidateInput(novoNome, novoEmail).value)
    ensures ValidateInput(novoNome, novoEmail).None? &&
            FindIndexById(Loaded(old(store.slot)), id) < 0 ==>
              r == Err(NotFound)
    ensures ValidateInput(novoNome, novoEmail).None? &&
            FindIndexById(Loaded(old(store.slot)), id) >= 0 &&
            TakenByOther(Loaded(old(store.slot)), id, novoEmail) ==>
              r == Err(EmailInUseByOther)
    ensures r.Err? ==> store.slot == old(store.slot)
    ensures r.Ok? <==> ValidateInput(novoNome, novoEmail).None? &&
                       FindIndexById(Loaded(old(store.slot)), id) >= 0 &&
                       !TakenByOther(Loaded(old(store.slot)), id, novoEmail)
    ensures r.Ok? ==>
              var us := Loaded(old(store.slot));
              var i := FindIndexById(us, id);
              var editado := us[i].(nome := Trim(novoNome), email := Trim(novoEmail),
                                    dataAtualizacao := Some(agora));
              if hostRejects then r.value == None && store.slot == old(store.slot)
              else r.value == Some(editado) && store.slot == Parsed(us[i := editado])
    ensures r.Ok? && !hostRejects ==>
              var us := Loaded(old(store.slot));
              var i := FindIndexById(us, id);
              |Loaded(store.slot)| == |us| &&
              Loaded(store.slot)[i].id == id &&
              Loaded(store.slot)[i].dataCriacao == us[i].dataCriacao &&
              forall k :: 0 <= k < |us| && k != i ==> Loaded(store.slot)[k] == us[k]
    ensures r.Ok? && EmailsDistinct(Loaded(old(store.slot))) && IdsUnique(Loaded(old(store.slot))) ==>
              EmailsDistinct(Loaded(store.slot))
  {
    var invalid := ValidateInput(novoNome, novoEmail);
    if invalid.Some? {
      return Err(invalid.value);
    }
    var usuarios := store.ObterUsuarios();
    var indice := FindIndexById(usuarios, id);
    if indice == -1 {
      return Err(NotFound);
    }
    if TakenByOther(usuarios, id, novoEmail) {
      return Err(EmailInUseByOther);
    }
    var editado := usuarios[indice].(nome := Trim(novoNome), email := Trim(novoEmail),
                                     dataAtualizacao := Some(agora));
    if EmailsDistinct(usuarios) && IdsUnique(usuarios) {
      ValidEmailHasNoSpace(novoEmail);
      EditedKeepsDistinct(usuarios, indice, novoEmail, editado);
    }
    usuarios := usuarios[indice := editado];
    var sucesso := store.SalvarUsuarios(usuarios, hostRejects);
    r := Ok(if sucesso then Some(usuarios[indice]) else None);
  }

  /** Delete: drops every record with the id, keeping the others in order; raises
      when there was none, and otherwise returns whether the write succeeded. */
  method DeletarUsuario(store: UserStore, id: int, hostRejects: bool) returns (r: Result<bool>)
    modifies store
    ensures FindIndexById(Loaded(old(store.slot)), id) < 0 ==>
              r == Err(NotFound) && store.slot == old(store.slot)
    ensures FindIndexById(Loaded(old(store.slot)), id) >= 0 ==>
              r == Ok(!hostRejects) &&
              store.slot == if hostRejects then old(store.slot)
                            else Parsed(RemoveId(Loaded(old(store.slot)), id))
    ensures r == Ok(true) ==> FindIndexById(Loaded(store.slot), id) == -1
    ensures r.Ok? && EmailsDistinct(Loaded(old(store.slot))) ==> EmailsDistinct(Loaded(store.slot))
  {
    var usuarios := store.ObterUsuarios();
    var quantidadeAntes := |usuarios|;
    var restantes := RemoveId(usuarios, id);
    if quantidadeAntes == |restantes| {
      return Err(NotFound);
    }
    NothingFoundAfterRemove(usuarios, id);
    if EmailsDistinct(usuarios) {
      RemoveKeepsDistinct(usuarios, id);
    }
    var ok := store.SalvarUsuarios(restantes, hostRejects);
    return Ok(ok);
  }
}
