/** The user record and the facts about a collection of them that the record
    service maintains. */
module Users {
  import opened JsText

  datatype Option<T> = None | Some(value: T)

  /** One stored user. `id` comes from the host clock at creation; the two
      timestamps are the ISO-8601 strings the host clock produced; `dataAtualizacao`
      is absent until the record is first edited. */
  datatype User = User(id: int, nome: string, email: string,
                       dataCriacao: string, dataAtualizacao: Option<string>)

  /** Two emails collide when they are equal after lower-casing. */
  predicate SameEmail(a: string, b: string) {
    ToLowerAscii(a) == ToLowerAscii(b)
  }

  /** Two emails collide exactly when they have the same length and agree at every
      position up to the case of an ASCII letter. */
  lemma SameEmailMeans(a: string, b: string)
    ensures SameEmail(a, b) <==>
      |a| == |b| && forall k :: 0 <= k < |a| ==> SameIgnoringAsciiCase(a[k], b[k])
  {
    var la, lb := ToLowerAscii(a), ToLowerAscii(b);
    if SameEmail(a, b) {
      forall k | 0 <= k < |a| ensures SameIgnoringAsciiCase(a[k], b[k]) {
        assert la[k] == lb[k];
      }
    }
    if |a| == |b| && forall k :: 0 <= k < |a| ==> SameIgnoringAsciiCase(a[k], b[k]) {
      forall k | 0 <= k < |a| ensures la[k] == lb[k] {
        assert SameIgnoringAsciiCase(a[k], b[k]);
      }
      assert la == lb;
    }
  }

  /** No two records of `us` have colliding emails. */
  predicate EmailsDistinct(us: seq<User>) {
    forall i, j :: 0 <= i < j < |us| ==> !SameEmail(us[i].email, us[j].email)
  }

  /** No two records of `us` share an id. */
  predicate IdsUnique(us: seq<User>) {
    forall i, j :: 0 <= i < j < |us| ==> us[i].id != us[j].id
  }

  /** `findIndex` on the id: the position of the first record with that id, or -1. */
  function FindIndexById(us: seq<User>, id: int): (r: int)
    ensures -1 <= r < |us|
    ensures r == -1 <==> forall k :: 0 <= k < |us| ==> us[k].id != id
    ensures 0 <= r ==> us[r].id == id && forall k :: 0 <= k < r ==> us[k].id != id
  {
    if us == [] then -1
    else if us[0].id == id then 0
    else
      var r := FindIndexById(us[1..], id);
      if r < 0 then -1 else r + 1
  }

  /** Appending a record whose email collides with none of `us` keeps the emails
      distinct. */
  lemma AppendKeepsDistinct(us: seq<User>, u: User)
    requires EmailsDistinct(us)
    requires forall k :: 0 <= k < |us| ==> !SameEmail(us[k].email, u.email)
    ensures EmailsDistinct(us + [u])
  {
    var vs := us + [u];
    forall i, j | 0 <= i < j < |vs|
      ensures !SameEmail(vs[i].email, vs[j].email)
    {
      if j == |us| {
        assert vs[i] == us[i];
      } else {
        assert vs[i] == us[i] && vs[j] == us[j];
      }
    }
  }

  /** Overwriting slot `i` with a record whose email collides with no other slot
      keeps the emails distinct. */
  lemma ReplaceKeepsDistinct(us: seq<User>, i: int, u: User)
    requires EmailsDistinct(us)
    requires 0 <= i < |us|
    requires forall k :: 0 <= k < |us| && k != i ==> !SameEmail(us[k].email, u.email)
    ensures EmailsDistinct(us[i := u])
  {
    var vs := us[i := u];
    forall a, b | 0 <= a < b < |vs|
      ensures !SameEmail(vs[a].email, vs[b].email)
    {
      if a == i {
        assert !SameEmail(us[b].email, u.email);
      } else if b == i {
        assert !SameEmail(us[a].email, u.email);
      } else {
        assert vs[a] == us[a] && vs[b] == us[b];
      }
    }
  }
}
