/** The relational store behind the three repositories: the tables Filiais,
    Patios and Motos keyed by id, the constraints their mappings declare
    (required columns, maximum lengths, foreign keys with cascading delete),
    and the repository operations Add, GetById, Update, Delete and the
    filtered, ordered, paginated listing. */
module Store {
  import opened Base
  import opened Text
  import opened Sequences
  import opened Sorting
  import opened Pagination
  import opened Entities

  /** The three tables. A foreign key is a plain id; the navigation
      collections (`Filial.Patios`, `Patio.Motos`) are the rows pointing back. */
  datatype Store = Store(filiais: map<Id, Filial>, patios: map<Id, Patio>, motos: map<Id, Moto>)

  /** The result of a repository call: the store afterwards and the value
      returned (or the error raised by `SaveChanges`). */
  datatype Response<T> = Response(store: Store, result: Result<T>)

  const EmptyStore: Store := Store(map[], map[], map[])

  // ------------------------------------------------------- column limits

  const FilialNomeMax: nat := 100
  const FilialBairroMax: nat := 100
  const FilialCnpjMax: nat := 20
  const PatioNomeMax: nat := 100
  const MotoPlacaMax: nat := 10
  const MotoChassiMax: nat := 30
  const MotoNumeroMotorMax: nat := 30

  /** A text value fits a column of `max` characters. The column counts
      UTF-16 code units, as `string.Length` does. */
  predicate Fits(s: string, max: nat)
  {
    Utf16Length(s) <= max
  }

  /** A string of at most half the column's width fits whatever its
      characters. */
  lemma ShortFits(s: string, max: nat)
    requires 2 * |s| <= max
    ensures Fits(s, max)
  {
    Utf16LengthFacts(s);
  }

  /** A nullable column of at most `max` characters; NULL always fits. */
  predicate FitsColumn(s: NString, max: nat)
  {
    s.None? || Fits(s.value, max)
  }

  /** The Filiais row respects `FilialMapping`: three required columns of at
      most 100, 100 and 20 characters. */
  predicate FilialFits(f: Filial)
  {
    Fits(f.nome, FilialNomeMax) && Fits(f.bairro, FilialBairroMax) && Fits(f.cnpj, FilialCnpjMax)
  }

  /** The Patios row respects `PatioMapping`: a required name of at most 100
      characters (the capacity column is required and always present). */
  predicate PatioFits(p: Patio)
  {
    Fits(p.nome, PatioNomeMax)
  }

  /** The Motos row respects `MotoMapping`: optional identifiers of at most
      10, 30 and 30 characters. */
  predicate MotoFits(m: Moto)
  {
    FitsColumn(m.placa, MotoPlacaMax)
    && FitsColumn(m.chassi, MotoChassiMax)
    && FitsColumn(m.numeroMotor, MotoNumeroMotorMax)
  }

  // --------------------------------------------------------- consistency

  /** What the database enforces: every row is stored under its own key,
      fits its columns, and every foreign key names an existing parent. */
  predicate Valid(st: Store)
  {
    && (forall k :: k in st.filiais ==> st.filiais[k].id == k && FilialFits(st.filiais[k]))
    && (forall k :: k in st.patios ==>
          st.patios[k].id == k && PatioFits(st.patios[k]) && st.patios[k].filialId in st.filiais)
    && (forall k :: k in st.motos ==>
          st.motos[k].id == k && MotoFits(st.motos[k]) && st.motos[k].patioId in st.patios)
  }

  /** What the entity classes guarantee of every row they ever produced. */
  predicate EntitiesValid(st: Store)
  {
    && (forall k :: k in st.filiais ==> FilialInvariant(st.filiais[k]))
    && (forall k :: k in st.patios ==> PatioInvariant(st.patios[k]))
    && (forall k :: k in st.motos ==> MotoInvariant(st.motos[k]))
  }

  /** `Filial.Patios`: the ids of the yards of a branch. */
  function PatiosOf(st: Store, filialId: Id): set<Id>
  {
    set k | k in st.patios && st.patios[k].filialId == filialId
  }

  /** `Patio.Motos`: the ids of the vehicles of a yard. */
  function MotosOf(st: Store, patioId: Id): set<Id>
  {
    set k | k in st.motos && st.motos[k].patioId == patioId
  }

  /** `Patio.PodeAdicionarMoto`: the yard holds fewer vehicles than its
      capacity. Nothing in the application consults it. */
  predicate PodeAdicionarMoto(st: Store, p: Patio): (ok: bool)
    ensures p.limiteMotos <= 0 ==> !ok
    ensures MotosOf(st, p.id) == {} ==> (ok <==> p.limiteMotos > 0)
  {
    |MotosOf(st, p.id)| < p.limiteMotos
  }

  // ---------------------------------------------------------------- Add

  /** `FilialRepository.AddAsync`: inserts the row, or fails in `SaveChanges`
      when the key is taken or a column is too long. */
  function AddFilial(st: Store, f: Filial): (r: Response<Filial>)
    ensures r.result.Ok? <==> f.id !in st.filiais && FilialFits(f)
    ensures r.result.Ok? ==>
      && r.result.value == f
      && r.store == st.(filiais := st.filiais[f.id := f])
    ensures r.result.Err? ==> r.result.error == PersistenceError && r.store == st
    ensures Valid(st) ==> Valid(r.store)
    ensures EntitiesValid(st) && FilialInvariant(f) ==> EntitiesValid(r.store)
    ensures Valid(st) && r.result.Ok? ==> PatiosOf(r.store, f.id) == {}
  {
    if f.id in st.filiais || !FilialFits(f) then Response(st, Err(PersistenceError))
    else Response(st.(filiais := st.filiais[f.id := f]), Ok(f))
  }

  /** `PatioRepository.AddAsync`: also fails when the branch does not exist. */
  function AddPatio(st: Store, p: Patio): (r: Response<Patio>)
    ensures r.result.Ok? <==> p.id !in st.patios && PatioFits(p) && p.filialId in st.filiais
    ensures r.result.Ok? ==>
      && r.result.value == p
      && r.store == st.(patios := st.patios[p.id := p])
    ensures r.result.Err? ==> r.result.error == PersistenceError && r.store == st
    ensures Valid(st) ==> Valid(r.store)
    ensures EntitiesValid(st) && PatioInvariant(p) ==> EntitiesValid(r.store)
    ensures Valid(st) && r.result.Ok? ==>
      && MotosOf(r.store, p.id) == {}
      && PatiosOf(r.store, p.filialId) == PatiosOf(st, p.filialId) + {p.id}
  {
    if p.id in st.patios || !PatioFits(p) || p.filialId !in st.filiais then
      Response(st, Err(PersistenceError))
    else
      InsertPatioValid(st, p);
      InsertPatioLinks(st, p);
      Response(st.(patios := st.patios[p.id := p]), Ok(p))
  }

  /** Inserting an acceptable yard keeps the store consistent. */
  lemma InsertPatioValid(st: Store, p: Patio)
    requires p.id !in st.patios && PatioFits(p) && p.filialId in st.filiais
    ensures Valid(st) ==> Valid(st.(patios := st.patios[p.id := p]))
  {
  }

  /** A newly inserted yard has no vehicles and joins its branch's yards. */
  lemma InsertPatioLinks(st: Store, p: Patio)
    requires p.id !in st.patios
    ensures var after := st.(patios := st.patios[p.id := p]);
      Valid(st) ==>
        && MotosOf(after, p.id) == {}
        && PatiosOf(after, p.filialId) == PatiosOf(st, p.filialId) + {p.id}
  {
  }

  /** `MotoRepository.AddAsync`: also fails when the yard does not exist.
      The yard's capacity is not consulted. */
  function AddMoto(st: Store, m: Moto): (r: Response<Moto>)
    ensures r.result.Ok? <==> m.id !in st.motos && MotoFits(m) && m.patioId in st.patios
    ensures r.result.Ok? ==>
      && r.result.value == m
      && r.store == st.(motos := st.motos[m.id := m])
    ensures r.result.Err? ==> r.result.error == PersistenceError && r.store == st
    ensures Valid(st) ==> Valid(r.store)
    ensures EntitiesValid(st) && MotoInvariant(m) ==> EntitiesValid(r.store)
    ensures Valid(st) && r.result.Ok? ==> MotosOf(r.store, m.patioId) == MotosOf(st, m.patioId) + {m.id}
  {
    if m.id in st.motos || !MotoFits(m) || m.patioId !in st.patios then
      Response(st, Err(PersistenceError))
    else
      InsertMotoValid(st, m);
      InsertMotoLinks(st, m);
      Response(st.(motos := st.motos[m.id := m]), Ok(m))
  }

  /** Inserting an acceptable vehicle keeps the store consistent. */
  lemma InsertMotoValid(st: Store, m: Moto)
    requires m.id !in st.motos && MotoFits(m) && m.patioId in st.patios
    ensures Valid(st) ==> Valid(st.(motos := st.motos[m.id := m]))
  {
  }

  /** A newly inserted vehicle joins its yard's vehicles. */
  lemma InsertMotoLinks(st: Store, m: Moto)
    ensures MotosOf(st.(motos := st.motos[m.id := m]), m.patioId) == MotosOf(st, m.patioId) + {m.id}
  {
  }

  // ------------------------------------------------------------ GetById

  /** `FilialRepository.GetByIdAsync`: the row with that id, or null. */
  function FindFilial(st: Store, id: Id): (r: Option<Filial>)
    ensures r.Some? <==> id in st.filiais
    ensures r.Some? ==> r.value == st.filiais[id]
    ensures Valid(st) && r.Some? ==> r.value.id == id
  {
    if id in st.filiais then Some(st.filiais[id]) else None
  }

  /** `PatioRepository.GetByIdAsync`. */
  function FindPatio(st: Store, id: Id): (r: Option<Patio>)
    ensures r.Some? <==> id in st.patios
    ensures r.Some? ==> r.value == st.patios[id]
    ensures Valid(st) && r.Some? ==> r.value.id == id && r.value.filialId in st.filiais
  {
    if id in st.patios then Some(st.patios[id]) else None
  }

  /** `MotoRepository.GetByIdAsync`. */
  function FindMoto(st: Store, id: Id): (r: Option<Moto>)
    ensures r.Some? <==> id in st.motos
    ensures r.Some? ==> r.value == st.motos[id]
    ensures Valid(st) && r.Some? ==> r.value.id == id && r.value.patioId in st.patios
  {
    if id in st.motos then Some(st.motos[id]) else None
  }

  // ------------------------------------------------------------- Update

  /** `FilialRepository.UpdateAsync`: overwrites every column of the row with
      the same id. No row affected gives `false`; a column too long makes
      `SaveChanges` fail. The yards are untouched. */
  function UpdateFilial(st: Store, f: Filial): (r: Response<bool>)
    ensures f.id !in st.filiais ==> r == Response(st, Ok(false))
    ensures f.id in st.filiais && !FilialFits(f) ==> r == Response(st, Err(PersistenceError))
    ensures f.id in st.filiais && FilialFits(f) ==>
      r == Response(st.(filiais := st.filiais[f.id := f]), Ok(true))
    ensures Valid(st) ==> Valid(r.store)
    ensures EntitiesValid(st) && FilialInvariant(f) ==> EntitiesValid(r.store)
    ensures r.store.filiais.Keys == st.filiais.Keys
  {
    if f.id !in st.filiais then Response(st, Ok(false))
    else if !FilialFits(f) then Response(st, Err(PersistenceError))
    else Response(st.(filiais := st.filiais[f.id := f]), Ok(true))
  }

  /** `PatioRepository.UpdateAsync`: the foreign key is written too, so it
      must name an existing branch. */
  function UpdatePatio(st: Store, p: Patio): (r: Response<bool>)
    ensures p.id !in st.patios ==> r == Response(st, Ok(false))
    ensures p.id in st.patios && (!PatioFits(p) || p.filialId !in st.filiais) ==>
      r == Response(st, Err(PersistenceError))
    ensures p.id in st.patios && PatioFits(p) && p.filialId in st.filiais ==>
      r == Response(st.(patios := st.patios[p.id := p]), Ok(true))
    ensures Valid(st) ==> Valid(r.store)
    ensures EntitiesValid(st) && PatioInvariant(p) ==> EntitiesValid(r.store)
    ensures r.store.patios.Keys == st.patios.Keys
  {
    if p.id !in st.patios then Response(st, Ok(false))
    else if !PatioFits(p) || p.filialId !in st.filiais then Response(st, Err(PersistenceError))
    else Response(st.(patios := st.patios[p.id := p]), Ok(true))
  }

  /** `MotoRepository.UpdateAsync`: the vehicle may move to another existing
      yard. */
  function UpdateMoto(st: Store, m: Moto): (r: Response<bool>)
    ensures m.id !in st.motos ==> r == Response(st, Ok(false))
    ensures m.id in st.motos && (!MotoFits(m) || m.patioId !in st.patios) ==>
      r == Response(st, Err(PersistenceError))
    ensures m.id in st.motos && MotoFits(m) && m.patioId in st.patios ==>
      r == Response(st.(motos := st.motos[m.id := m]), Ok(true))
    ensures Valid(st) ==> Valid(r.store)
    ensures EntitiesValid(st) && MotoInvariant(m) ==> EntitiesValid(r.store)
    ensures r.store.motos.Keys == st.motos.Keys
  {
    if m.id !in st.motos then Response(st, Ok(false))
    else if !MotoFits(m) || m.patioId !in st.patios then Response(st, Err(PersistenceError))
    else Response(st.(motos := st.motos[m.id := m]), Ok(true))
  }

  // ------------------------------------------------------------- Delete

  /** `FilialRepository.DeleteAsync`: `false` when there is no such row;
      otherwise removes the branch and, by the cascading foreign keys, its
      yards and their vehicles. */
  function DeleteFilial(st: Store, id: Id): (r: Response<bool>)
    ensures r.result == Ok(id in st.filiais)
    ensures id !in st.filiais ==> r.store == st
    ensures id in st.filiais ==>
      && r.store.filiais == st.filiais - {id}
      && (forall k :: k in r.store.patios <==> k in st.patios && st.patios[k].filialId != id)
      && (forall k :: k in r.store.motos <==> k in st.motos && st.motos[k].patioId !in PatiosOf(st, id))
    ensures forall k :: k in r.store.patios ==> k in st.patios && r.store.patios[k] == st.patios[k]
    ensures forall k :: k in r.store.motos ==> k in st.motos && r.store.motos[k] == st.motos[k]
    ensures Valid(st) ==> Valid(r.store)
    ensures EntitiesValid(st) ==> EntitiesValid(r.store)
  {
    if id !in st.filiais then Response(st, Ok(false))
    else
      var gone := PatiosOf(st, id);
      Response(
        Store(
          st.filiais - {id},
          map k | k in st.patios && st.patios[k].filialId != id :: st.patios[k],
          map k | k in st.motos && st.motos[k].patioId !in gone :: st.motos[k]),
        Ok(true))
  }

  /** `PatioRepository.DeleteAsync`: removes the yard and, by cascade, its
      vehicles. */
  function DeletePatio(st: Store, id: Id): (r: Response<bool>)
    ensures r.result == Ok(id in st.patios)
    ensures id !in st.patios ==> r.store == st
    ensures id in st.patios ==>
      && r.store.filiais == st.filiais
      && r.store.patios == st.patios - {id}
      && (forall k :: k in r.store.motos <==> k in st.motos && st.motos[k].patioId != id)
    ensures forall k :: k in r.store.motos ==> k in st.motos && r.store.motos[k] == st.motos[k]
    ensures Valid(st) ==> Valid(r.store)
    ensures EntitiesValid(st) ==> EntitiesValid(r.store)
  {
    if id !in st.patios then Response(st, Ok(false))
    else
      Response(
        st.(patios := st.patios - {id},
            motos := map k | k in st.motos && st.motos[k].patioId != id :: st.motos[k]),
        Ok(true))
  }

  /** `MotoRepository.DeleteAsync`: removes the vehicle alone. */
  function DeleteMoto(st: Store, id: Id): (r: Response<bool>)
    ensures r.result == Ok(id in st.motos)
    ensures id !in st.motos ==> r.store == st
    ensures id in st.motos ==> r.store == st.(motos := st.motos - {id})
    ensures Valid(st) ==> Valid(r.store)
    ensures EntitiesValid(st) ==> EntitiesValid(r.store)
  {
    if id !in st.motos then Response(st, Ok(false))
    else Response(st.(motos := st.motos - {id}), Ok(true))
  }

  /** Adding a vehicle takes one place of its own yard's capacity and none
      of any other yard's. */
  lemma AddMotoUsesCapacity(st: Store, m: Moto, p: Patio)
    requires Valid(st) && AddMoto(st, m).result.Ok?
    ensures p.id == m.patioId ==>
      (PodeAdicionarMoto(AddMoto(st, m).store, p) <==> |MotosOf(st, p.id)| + 1 < p.limiteMotos)
    ensures p.id != m.patioId ==>
      PodeAdicionarMoto(AddMoto(st, m).store, p) == PodeAdicionarMoto(st, p)
  {
    var after := AddMoto(st, m).store;
    if p.id == m.patioId {
      assert m.id !in MotosOf(st, p.id);
    } else {
      assert MotosOf(after, p.id) == MotosOf(st, p.id);
    }
  }

  /** Deleting a vehicle frees one place of its yard's capacity and leaves
      every other yard's unchanged. */
  lemma DeleteMotoFreesCapacity(st: Store, id: Id, p: Patio)
    requires id in st.motos
    ensures p.id == st.motos[id].patioId ==>
      (PodeAdicionarMoto(DeleteMoto(st, id).store, p) <==> |MotosOf(st, p.id)| - 1 < p.limiteMotos)
    ensures p.id != st.motos[id].patioId ==>
      PodeAdicionarMoto(DeleteMoto(st, id).store, p) == PodeAdicionarMoto(st, p)
  {
    var after := DeleteMoto(st, id).store;
    if p.id == st.motos[id].patioId {
      assert MotosOf(after, p.id) == MotosOf(st, p.id) - {id};
    } else {
      assert MotosOf(after, p.id) == MotosOf(st, p.id);
    }
  }

  /** Deleting a branch leaves nothing that was reachable from it: none of
      its yards and none of their vehicles can be found afterwards, while
      every other branch is still there. */
  lemma DeleteFilialCascades(st: Store, id: Id, patioId: Id, motoId: Id, other: Id)
    requires Valid(st)
    requires id in st.filiais
    requires patioId in st.patios && st.patios[patioId].filialId == id
    requires motoId in st.motos && st.motos[motoId].patioId == patioId
    requires other in st.filiais && other != id
    ensures var after := DeleteFilial(st, id).store;
            && FindFilial(after, id).None?
            && FindPatio(after, patioId).None?
            && FindMoto(after, motoId).None?
            && FindFilial(after, other) == FindFilial(st, other)
  {
    assert patioId in PatiosOf(st, id);
  }

  // ------------------------------------------------------------- Search

  /** The filter of `FilialRepository.GetPaginationAsync` for a trimmed,
      non-blank term: a substring of the name, the district or the CNPJ. */
  predicate FilialMatches(f: Filial, term: string)
  {
    Contains(f.nome, term) || Contains(f.bairro, term) || Contains(f.cnpj, term)
  }

  /** The filter of `PatioRepository.GetPaginationAsync`: a substring of the
      name. */
  predicate PatioMatches(p: Patio, term: string)
  {
    Contains(p.nome, term)
  }

  /** The filter of `MotoRepository.GetPaginationAsync`: a substring of the
      plate, the chassis or the engine number, a null one counting as "". */
  predicate MotoMatches(m: Moto, term: string)
  {
    Contains(m.placa.GetOr(""), term)
    || Contains(m.chassi.GetOr(""), term)
    || Contains(m.numeroMotor.GetOr(""), term)
  }

  /** A blank search keeps every row; any other search is trimmed first. */
  predicate FilialSelected(f: Filial, search: NString)
  {
    IsNullOrWhiteSpace(search) || FilialMatches(f, Trim(search.value))
  }

  predicate PatioSelected(p: Patio, search: NString)
  {
    IsNullOrWhiteSpace(search) || PatioMatches(p, Trim(search.value))
  }

  predicate MotoSelected(m: Moto, search: NString)
  {
    IsNullOrWhiteSpace(search) || MotoMatches(m, Trim(search.value))
  }

  /** The search filters as the functions handed to `Where`. */
  function SelectsFilial(search: NString): Filial -> bool
  {
    f => FilialSelected(f, search)
  }

  function SelectsPatio(search: NString): Patio -> bool
  {
    p => PatioSelected(p, search)
  }

  function SelectsMoto(search: NString): Moto -> bool
  {
    m => MotoSelected(m, search)
  }

  // -------------------------------------------------------------- Order

  /** `OrderBy(Nome).ThenBy(Id)`, as a strict order on (name, id) pairs. */
  predicate NameThenId(n1: string, i1: Id, n2: string, i2: Id)
  {
    Less(n1, n2) || (n1 == n2 && i1 < i2)
  }

  lemma NameThenIdStrict(n1: string, i1: Id, n2: string, i2: Id, n3: string, i3: Id)
    ensures !NameThenId(n1, i1, n1, i1)
    ensures NameThenId(n1, i1, n2, i2) && NameThenId(n2, i2, n3, i3) ==> NameThenId(n1, i1, n3, i3)
  {
    LessIrreflexive(n1);
    if Less(n1, n2) && Less(n2, n3) {
      LessTransitive(n1, n2, n3);
    }
  }

  lemma NameThenIdTotal(n1: string, i1: Id, n2: string, i2: Id)
    requires i1 != i2
    ensures NameThenId(n1, i1, n2, i2) || NameThenId(n2, i2, n1, i1)
  {
    if n1 != n2 {
      LessTotal(n1, n2);
    }
  }

  predicate FilialBefore(a: Filial, b: Filial)
  {
    NameThenId(a.nome, a.id, b.nome, b.id)
  }

  predicate PatioBefore(a: Patio, b: Patio)
  {
    NameThenId(a.nome, a.id, b.nome, b.id)
  }

  /** `OrderByDescending(Id)`. */
  predicate MotoBefore(a: Moto, b: Moto)
  {
    a.id > b.id
  }

  lemma FilialOrderStrict()
    ensures StrictOrder(FilialBefore)
  {
    forall a: Filial, b: Filial, c: Filial
      ensures !FilialBefore(a, a)
      ensures FilialBefore(a, b) && FilialBefore(b, c) ==> FilialBefore(a, c)
    {
      NameThenIdStrict(a.nome, a.id, b.nome, b.id, c.nome, c.id);
    }
  }

  lemma PatioOrderStrict()
    ensures StrictOrder(PatioBefore)
  {
    forall a: Patio, b: Patio, c: Patio
      ensures !PatioBefore(a, a)
      ensures PatioBefore(a, b) && PatioBefore(b, c) ==> PatioBefore(a, c)
    {
      NameThenIdStrict(a.nome, a.id, b.nome, b.id, c.nome, c.id);
    }
  }

  // ------------------------------------------------------------ Listing

  /** The whole filtered listing, in its order: `Where` then `OrderBy`. */
  function Listing<T(==,!new)>(table: map<Id, T>, selected: T -> bool, before: (T, T) -> bool): seq<T>
  {
    Sort(before, Filter(selected, Rows(table)))
  }

  /** `before` ranks any two rows of `table` stored under different keys. */
  ghost predicate Ranked<T(!new)>(table: map<Id, T>, before: (T, T) -> bool)
  {
    forall a, b :: a in table && b in table && a != b ==>
      before(table[a], table[b]) || before(table[b], table[a])
  }

  /** Under a ranking by a strict order, different keys hold different rows,
      so enumerating the table lists no row twice. */
  lemma RankedRowsDistinct<T(!new)>(table: map<Id, T>, before: (T, T) -> bool)
    requires Irreflexive(before) && Ranked(table, before)
    ensures Distinct(Rows(table))
  {
    forall a, b | a in table && b in table && a != b ensures table[a] != table[b] {
      assert before(table[a], table[b]) || before(table[b], table[a]);
    }
  }

  /** Any sequence of rows of a ranked table is totally ordered. */
  lemma RankedTotalOn<T(!new)>(table: map<Id, T>, before: (T, T) -> bool, s: seq<T>)
    requires Ranked(table, before)
    requires forall x :: x in s ==> x in table.Values
    ensures TotalOn(before, s)
  {
    forall x, y | x in s && y in s && x != y ensures before(x, y) || before(y, x) {
      var a :| a in table && table[a] == x;
      var b :| b in table && table[b] == y;
    }
  }

  /** The rows of `table` that `selected` keeps. */
  function Matching<T(!new)>(table: map<Id, T>, selected: T -> bool): set<T>
  {
    set x | x in table.Values && selected(x)
  }

  /** A listing holds exactly the selected rows. */
  lemma ListingMembers<T(!new)>(table: map<Id, T>, selected: T -> bool, before: (T, T) -> bool)
    ensures forall x :: x in Listing(table, selected, before) <==> x in Matching(table, selected)
  {
    SortSameElements(before, Filter(selected, Rows(table)));
  }

  /** What every listing delivers when the order is strict and ranks the
      table: each selected row exactly once, in increasing order. */
  lemma ListingFacts<T(!new)>(table: map<Id, T>, selected: T -> bool, before: (T, T) -> bool)
    requires StrictOrder(before) && Ranked(table, before)
    ensures var r := Listing(table, selected, before);
            && SortedBy(before, r)
            && Distinct(r)
            && |r| == |Matching(table, selected)|
  {
    var rows := Rows(table);
    RankedRowsDistinct(table, before);
    var f := Filter(selected, rows);
    RankedTotalOn(table, before, f);
    SortSorted(before, f);
    var r := Sort(before, f);
    SortedDistinct(before, r);
    ListingMembers(table, selected, before);
    DistinctListingCard(r, Matching(table, selected));
  }

  /** Enumerating a table in any order before sorting gives the same
      listing: the result never depends on the order the database returns
      rows in. */
  lemma ListingCanonical<T(!new)>(
    table: map<Id, T>, selected: T -> bool, before: (T, T) -> bool, rows: seq<T>)
    requires StrictOrder(before) && Ranked(table, before)
    requires multiset(rows) == multiset(Rows(table))
    ensures Sort(before, Filter(selected, rows)) == Listing(table, selected, before)
  {
    var canon := Filter(selected, Rows(table));
    var other := Filter(selected, rows);
    RankedRowsDistinct(table, before);
    RankedTotalOn(table, before, canon);
    FilterSameMultiset(selected, Rows(table), rows);
    SortCanonical(before, canon, other);
  }

  /** In a consistent store, the listing of a table ranks any two rows. */
  lemma FiliaisRanked(st: Store)
    requires Valid(st)
    ensures StrictOrder(FilialBefore) && Ranked(st.filiais, FilialBefore)
  {
    FilialOrderStrict();
    forall a, b | a in st.filiais && b in st.filiais && a != b
      ensures FilialBefore(st.filiais[a], st.filiais[b]) || FilialBefore(st.filiais[b], st.filiais[a])
    {
      NameThenIdTotal(st.filiais[a].nome, a, st.filiais[b].nome, b);
    }
  }

  /** In a consistent store, name-then-id ranks every pair of yards. */
  lemma PatiosRanked(st: Store)
    requires Valid(st)
    ensures StrictOrder(PatioBefore) && Ranked(st.patios, PatioBefore)
  {
    PatioOrderStrict();
    forall a, b | a in st.patios && b in st.patios && a != b
      ensures PatioBefore(st.patios[a], st.patios[b]) || PatioBefore(st.patios[b], st.patios[a])
    {
      NameThenIdTotal(st.patios[a].nome, a, st.patios[b].nome, b);
    }
  }

  /** In a consistent store, descending id ranks every pair of vehicles,
      since ids are keys. */
  lemma MotosRanked(st: Store)
    requires Valid(st)
    ensures StrictOrder(MotoBefore) && Ranked(st.motos, MotoBefore)
  {
  }

  /** The branches a search selects. */
  function MatchingFiliais(st: Store, search: NString): set<Filial>
  {
    Matching(st.filiais, SelectsFilial(search))
  }

  /** The selected branches in listing order. */
  function OrderedFiliais(st: Store, search: NString): (r: seq<Filial>)
    ensures forall f :: f in r <==> f in MatchingFiliais(st, search)
    ensures Valid(st) ==>
      && SortedBy(FilialBefore, r)
      && Distinct(r)
      && |r| == |MatchingFiliais(st, search)|
  {
    ListingMembers(st.filiais, SelectsFilial(search), FilialBefore);
    if Valid(st) then
      FiliaisRanked(st);
      ListingFacts(st.filiais, SelectsFilial(search), FilialBefore);
      Listing(st.filiais, SelectsFilial(search), FilialBefore)
    else
      Listing(st.filiais, SelectsFilial(search), FilialBefore)
  }

  /** The yards a search selects. */
  function MatchingPatios(st: Store, search: NString): set<Patio>
  {
    Matching(st.patios, SelectsPatio(search))
  }

  /** The selected yards in listing order. */
  function OrderedPatios(st: Store, search: NString): (r: seq<Patio>)
    ensures forall p :: p in r <==> p in MatchingPatios(st, search)
    ensures Valid(st) ==>
      && SortedBy(PatioBefore, r)
      && Distinct(r)
      && |r| == |MatchingPatios(st, search)|
  {
    ListingMembers(st.patios, SelectsPatio(search), PatioBefore);
    if Valid(st) then
      PatiosRanked(st);
      ListingFacts(st.patios, SelectsPatio(search), PatioBefore);
      Listing(st.patios, SelectsPatio(search), PatioBefore)
    else
      Listing(st.patios, SelectsPatio(search), PatioBefore)
  }

  /** The vehicles a search selects. */
  function MatchingMotos(st: Store, search: NString): set<Moto>
  {
    Matching(st.motos, SelectsMoto(search))
  }

  /** The selected vehicles in listing order. */
  function OrderedMotos(st: Store, search: NString): (r: seq<Moto>)
    ensures forall m :: m in r <==> m in MatchingMotos(st, search)
    ensures Valid(st) ==>
      && SortedBy(MotoBefore, r)
      && Distinct(r)
      && |r| == |MatchingMotos(st, search)|
  {
    ListingMembers(st.motos, SelectsMoto(search), MotoBefore);
    if Valid(st) then
      MotosRanked(st);
      ListingFacts(st.motos, SelectsMoto(search), MotoBefore);
      Listing(st.motos, SelectsMoto(search), MotoBefore)
    else
      Listing(st.motos, SelectsMoto(search), MotoBefore)
  }

  /** A page of an increasing sequence is increasing. */
  lemma PageSorted<T>(lt: (T, T) -> bool, rows: seq<T>, page: int, pageSize: int)
    requires page >= 1 && pageSize >= 1
    requires SortedBy(lt, rows)
    ensures SortedBy(lt, Paginate(rows, page, pageSize).items)
  {
    var items := Paginate(rows, page, pageSize).items;
    var skip := (page - 1) * pageSize;
    forall i, j | 0 <= i < j < |items| ensures lt(items[i], items[j]) {
      assert items[i] == rows[skip + i] && items[j] == rows[skip + j];
    }
  }

  /** `FilialRepository.GetPaginationAsync`: the requested page of the
      selected branches ordered by name then id, with the number of all
      selected branches. */
  function ListFiliais(st: Store, page: int, pageSize: int, search: NString): (r: PageResult<Filial>)
    requires page >= 1 && pageSize >= 1
    ensures r.page == page && r.pageSize == pageSize
    ensures |r.items| <= pageSize
    ensures r.items == Paginate(OrderedFiliais(st, search), page, pageSize).items
    ensures forall f :: f in r.items ==> f in MatchingFiliais(st, search)
    ensures Valid(st) ==>
      && r.total == |MatchingFiliais(st, search)|
      && SortedBy(FilialBefore, r.items)
  {
    var all := OrderedFiliais(st, search);
    var r := Paginate(all, page, pageSize);
    PageWithinRows(all, page, pageSize);
    assert Valid(st) ==> SortedBy(FilialBefore, r.items) by {
      if Valid(st) {
        PageSorted(FilialBefore, all, page, pageSize);
      }
    }
    r
  }

  /** `PatioRepository.GetPaginationAsync`. */
  function ListPatios(st: Store, page: int, pageSize: int, search: NString): (r: PageResult<Patio>)
    requires page >= 1 && pageSize >= 1
    ensures r.page == page && r.pageSize == pageSize
    ensures |r.items| <= pageSize
    ensures r.items == Paginate(OrderedPatios(st, search), page, pageSize).items
    ensures forall p :: p in r.items ==> p in MatchingPatios(st, search)
    ensures Valid(st) ==>
      && r.total == |MatchingPatios(st, search)|
      && SortedBy(PatioBefore, r.items)
  {
    var all := OrderedPatios(st, search);
    var r := Paginate(all, page, pageSize);
    PageWithinRows(all, page, pageSize);
    assert Valid(st) ==> SortedBy(PatioBefore, r.items) by {
      if Valid(st) {
        PageSorted(PatioBefore, all, page, pageSize);
      }
    }
    r
  }

  /** `MotoRepository.GetPaginationAsync`: in descending id order. */
  function ListMotos(st: Store, page: int, pageSize: int, search: NString): (r: PageResult<Moto>)
    requires page >= 1 && pageSize >= 1
    ensures r.page == page && r.pageSize == pageSize
    ensures |r.items| <= pageSize
    ensures r.items == Paginate(OrderedMotos(st, search), page, pageSize).items
    ensures forall m :: m in r.items ==> m in MatchingMotos(st, search)
    ensures Valid(st) ==>
      && r.total == |MatchingMotos(st, search)|
      && SortedBy(MotoBefore, r.items)
  {
    var all := OrderedMotos(st, search);
    var r := Paginate(all, page, pageSize);
    PageWithinRows(all, page, pageSize);
    assert Valid(st) ==> SortedBy(MotoBefore, r.items) by {
      if Valid(st) {
        PageSorted(MotoBefore, all, page, pageSize);
      }
    }
    r
  }

  /** Reading the branch listing page by page, from page 1 to the last page,
      yields every selected branch exactly once, in listing order; every page
      after the last is empty. */
  lemma FilialPagesCoverListing(st: Store, pageSize: int, search: NString)
    requires Valid(st) && pageSize >= 1
    ensures var rows := OrderedFiliais(st, search);
            var n := ListFiliais(st, 1, pageSize, search).TotalPages();
            && (forall page :: page >= 1 ==>
                  ListFiliais(st, page, pageSize, search).items == Paginate(rows, page, pageSize).items)
            && Concat(FirstPages(rows, pageSize, n)) == rows
            && (forall page :: page > n ==> ListFiliais(st, page, pageSize, search).items == [])
            && Distinct(rows)
            && (forall f :: f in rows <==> f in MatchingFiliais(st, search))
  {
    var rows := OrderedFiliais(st, search);
    PagesPartitionRows(rows, pageSize);
  }

  /** The same for the yard listing. */
  lemma PatioPagesCoverListing(st: Store, pageSize: int, search: NString)
    requires Valid(st) && pageSize >= 1
    ensures var rows := OrderedPatios(st, search);
            var n := ListPatios(st, 1, pageSize, search).TotalPages();
            && (forall page :: page >= 1 ==>
                  ListPatios(st, page, pageSize, search).items == Paginate(rows, page, pageSize).items)
            && Concat(FirstPages(rows, pageSize, n)) == rows
            && (forall page :: page > n ==> ListPatios(st, page, pageSize, search).items == [])
            && Distinct(rows)
            && (forall p :: p in rows <==> p in MatchingPatios(st, search))
  {
    var rows := OrderedPatios(st, search);
    PagesPartitionRows(rows, pageSize);
  }

  /** The same for the vehicle listing. */
  lemma MotoPagesCoverListing(st: Store, pageSize: int, search: NString)
    requires Valid(st) && pageSize >= 1
    ensures var rows := OrderedMotos(st, search);
            var n := ListMotos(st, 1, pageSize, search).TotalPages();
            && (forall page :: page >= 1 ==>
                  ListMotos(st, page, pageSize, search).items == Paginate(rows, page, pageSize).items)
            && Concat(FirstPages(rows, pageSize, n)) == rows
            && (forall page :: page > n ==> ListMotos(st, page, pageSize, search).items == [])
            && Distinct(rows)
            && (forall m :: m in rows <==> m in MatchingMotos(st, search))
  {
    var rows := OrderedMotos(st, search);
    PagesPartitionRows(rows, pageSize);
  }

  /** The branch listing does not depend on the order the rows are read in. */
  lemma FilialListingCanonical(st: Store, search: NString, rows: seq<Filial>)
    requires Valid(st)
    requires multiset(rows) == multiset(Rows(st.filiais))
    ensures Sort(FilialBefore, Filter(SelectsFilial(search), rows)) == OrderedFiliais(st, search)
  {
    FiliaisRanked(st);
    ListingCanonical(st.filiais, SelectsFilial(search), FilialBefore, rows);
  }

  lemma PatioListingCanonical(st: Store, search: NString, rows: seq<Patio>)
    requires Valid(st)
    requires multiset(rows) == multiset(Rows(st.patios))
    ensures Sort(PatioBefore, Filter(SelectsPatio(search), rows)) == OrderedPatios(st, search)
  {
    PatiosRanked(st);
    ListingCanonical(st.patios, SelectsPatio(search), PatioBefore, rows);
  }

  lemma MotoListingCanonical(st: Store, search: NString, rows: seq<Moto>)
    requires Valid(st)
    requires multiset(rows) == multiset(Rows(st.motos))
    ensures Sort(MotoBefore, Filter(SelectsMoto(search), rows)) == OrderedMotos(st, search)
  {
    MotosRanked(st);
    ListingCanonical(st.motos, SelectsMoto(search), MotoBefore, rows);
  }

  /** The search term is trimmed before use: white space around it never
      changes which rows are listed. */
  lemma SearchIgnoresSurroundingSpace(p: string, term: string, q: string, f: Filial, pa: Patio, m: Moto)
    requires Blank(p) && Blank(q)
    ensures FilialSelected(f, Some(p + term + q)) <==> FilialSelected(f, Some(term))
    ensures PatioSelected(pa, Some(p + term + q)) <==> PatioSelected(pa, Some(term))
    ensures MotoSelected(m, Some(p + term + q)) <==> MotoSelected(m, Some(term))
  {
    TrimPadded(p, term, q);
  }
}
