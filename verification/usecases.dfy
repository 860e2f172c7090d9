/** The application layer: one use case per entity. Each checks its input,
    builds or changes the entity, and hands it to the repository; listings
    normalise the requested page first. GetById and Delete hand the call to
    the repository unchanged, so `Store.Find*` and `Store.Delete*` are their
    model. */
module UseCases {
  import opened Base
  import opened Text
  import opened Sorting
  import opened Pagination
  import opened Entities
  import opened Store
  import opened Requests
  import opened Cnpj

  // ---------------------------------------------------------- listings

  /** `FilialUseCase.GetPagination`. */
  function GetFiliais(st: Store, req: PaginatedRequest): (r: PageResult<Filial>)
    ensures r.page >= 1 && (req.pageNumber >= 1 ==> r.page == req.pageNumber)
    ensures req.pageNumber < 1 ==> r.page == 1
    ensures 1 <= r.pageSize <= MaxPageSize && |r.items| <= r.pageSize
    ensures r.pageSize == NormalizePageSize(req.pageSize)
    ensures r.items == Paginate(OrderedFiliais(st, req.search), r.page, r.pageSize).items
    ensures forall f :: f in r.items ==> f in MatchingFiliais(st, req.search)
    ensures Valid(st) ==>
      && r.total == |MatchingFiliais(st, req.search)|
      && SortedBy(FilialBefore, r.items)
  {
    ListFiliais(st, NormalizePage(req.pageNumber), NormalizePageSize(req.pageSize), req.search)
  }

  /** `PatioUseCase.GetPagination`. */
  function GetPatios(st: Store, req: PaginatedRequest): (r: PageResult<Patio>)
    ensures r.page >= 1 && (req.pageNumber >= 1 ==> r.page == req.pageNumber)
    ensures req.pageNumber < 1 ==> r.page == 1
    ensures 1 <= r.pageSize <= MaxPageSize && |r.items| <= r.pageSize
    ensures r.pageSize == NormalizePageSize(req.pageSize)
    ensures r.items == Paginate(OrderedPatios(st, req.search), r.page, r.pageSize).items
    ensures forall p :: p in r.items ==> p in MatchingPatios(st, req.search)
    ensures Valid(st) ==>
      && r.total == |MatchingPatios(st, req.search)|
      && SortedBy(PatioBefore, r.items)
  {
    ListPatios(st, NormalizePage(req.pageNumber), NormalizePageSize(req.pageSize), req.search)
  }

  /** `MotoUseCase.GetPagination`. */
  function GetMotos(st: Store, req: PaginatedRequest): (r: PageResult<Moto>)
    ensures r.page >= 1 && (req.pageNumber >= 1 ==> r.page == req.pageNumber)
    ensures req.pageNumber < 1 ==> r.page == 1
    ensures 1 <= r.pageSize <= MaxPageSize && |r.items| <= r.pageSize
    ensures r.pageSize == NormalizePageSize(req.pageSize)
    ensures r.items == Paginate(OrderedMotos(st, req.search), r.page, r.pageSize).items
    ensures forall m :: m in r.items ==> m in MatchingMotos(st, req.search)
    ensures Valid(st) ==>
      && r.total == |MatchingMotos(st, req.search)|
      && SortedBy(MotoBefore, r.items)
  {
    ListMotos(st, NormalizePage(req.pageNumber), NormalizePageSize(req.pageSize), req.search)
  }

  /** Out-of-range parameters are read as the nearest accepted ones: a page
      below 1 is page 1, a size below 1 is the default size and a size above
      the maximum is the maximum. The same holds for the three listings. */
  lemma OutOfRangeRequestsAreClamped(st: Store, pageNumber: int, pageSize: int, search: NString)
    ensures pageNumber < 1 ==>
      && GetFiliais(st, PaginatedRequest(pageNumber, pageSize, search)) == GetFiliais(st, PaginatedRequest(1, pageSize, search))
      && GetPatios(st, PaginatedRequest(pageNumber, pageSize, search)) == GetPatios(st, PaginatedRequest(1, pageSize, search))
      && GetMotos(st, PaginatedRequest(pageNumber, pageSize, search)) == GetMotos(st, PaginatedRequest(1, pageSize, search))
    ensures pageSize < 1 ==>
      && GetFiliais(st, PaginatedRequest(pageNumber, pageSize, search)) == GetFiliais(st, PaginatedRequest(pageNumber, DefaultPageSize, search))
      && GetPatios(st, PaginatedRequest(pageNumber, pageSize, search)) == GetPatios(st, PaginatedRequest(pageNumber, DefaultPageSize, search))
      && GetMotos(st, PaginatedRequest(pageNumber, pageSize, search)) == GetMotos(st, PaginatedRequest(pageNumber, DefaultPageSize, search))
    ensures pageSize > MaxPageSize ==>
      && GetFiliais(st, PaginatedRequest(pageNumber, pageSize, search)) == GetFiliais(st, PaginatedRequest(pageNumber, MaxPageSize, search))
      && GetPatios(st, PaginatedRequest(pageNumber, pageSize, search)) == GetPatios(st, PaginatedRequest(pageNumber, MaxPageSize, search))
      && GetMotos(st, PaginatedRequest(pageNumber, pageSize, search)) == GetMotos(st, PaginatedRequest(pageNumber, MaxPageSize, search))
  {
  }

  /** A listing request with no parameters gets the first page of ten, for
      all three entities, although the yard request's page number starts at
      0. */
  lemma DefaultRequestsGiveFirstPage(st: Store)
    ensures GetFiliais(st, FilialPaginatedDefault) == ListFiliais(st, 1, DefaultPageSize, None)
    ensures GetPatios(st, PatioPaginatedDefault) == ListPatios(st, 1, DefaultPageSize, None)
    ensures GetMotos(st, MotoPaginatedDefault) == ListMotos(st, 1, DefaultPageSize, None)
  {
  }

  // ------------------------------------------------------------ Filial

  /** The first blank field of a Filial request, checked in the order of the
      use case; the use case raises it as an `ArgumentException`. */
  function FilialInputError(req: FilialRequest): (err: Option<Error>)
    ensures err.None? <==> ValidarFilial(req.nome, req.bairro, req.cnpj).None?
    ensures err.Some? ==>
      err.value.ArgumentError? && Some(GeneralError(err.value.field)) == ValidarFilial(req.nome, req.bairro, req.cnpj)
  {
    if IsNullOrWhiteSpace(req.nome) then Some(ArgumentError(Nome))
    else if IsNullOrWhiteSpace(req.bairro) then Some(ArgumentError(Bairro))
    else if IsNullOrWhiteSpace(req.cnpj) then Some(ArgumentError(Cnpj))
    else None
  }

  /** The row a valid Filial request describes. */
  function FilialOf(id: Id, req: FilialRequest): Filial
    requires req.nome.Some? && req.bairro.Some? && req.cnpj.Some?
  {
    Filial(id, req.nome.value, req.bairro.value, req.cnpj.value)
  }

  /** `FilialUseCase.CreateAsync` with `freshId` as the generated id: input
      errors first, with the store untouched; then the row is inserted, and
      only the store can still refuse it. The entity's own exception can
      never surface. */
  function CreateFilial(st: Store, req: FilialRequest, freshId: Id): (r: Response<Filial>)
    ensures FilialInputError(req).Some? ==> r == Response(st, Err(FilialInputError(req).value))
    ensures FilialInputError(req).None? ==>
      var f := FilialOf(freshId, req);
      && FilialInvariant(f)
      && r == AddFilial(st, f)
    ensures r.result.Ok? <==>
      FilialInputError(req).None? && freshId !in st.filiais && FilialFits(FilialOf(freshId, req))
    ensures r.result.Err? ==> r.store == st && (r.result.error.ArgumentError? || r.result.error == PersistenceError)
    ensures Valid(st) ==> Valid(r.store)
    ensures EntitiesValid(st) ==> EntitiesValid(r.store)
  {
    match FilialInputError(req)
    case Some(e) => Response(st, Err(e))
    case None =>
      match NewFilial(freshId, req.nome, req.bairro, req.cnpj)
      case Err(e) => Response(st, Err(e))
      case Ok(f) => AddFilial(st, f)
  }

  /** `FilialUseCase.UpdateAsync`: input errors come before the lookup, so
      they are raised even for an unknown id; an unknown id then gives
      `false` and changes nothing; otherwise the three text columns of that
      row are replaced and its yards are untouched. */
  function UpdateFilialUseCase(st: Store, id: Id, req: FilialRequest): (r: Response<bool>)
    ensures FilialInputError(req).Some? ==> r == Response(st, Err(FilialInputError(req).value))
    ensures FilialInputError(req).None? && id !in st.filiais ==> r == Response(st, Ok(false))
    ensures Valid(st) && FilialInputError(req).None? && id in st.filiais ==>
      if FilialFits(FilialOf(id, req)) then
        r == Response(st.(filiais := st.filiais[id := FilialOf(id, req)]), Ok(true))
      else
        r == Response(st, Err(PersistenceError))
    ensures Valid(st) ==> Valid(r.store)
    ensures EntitiesValid(st) ==> EntitiesValid(r.store)
    ensures r.store.patios == st.patios && r.store.motos == st.motos
  {
    match FilialInputError(req)
    case Some(e) => Response(st, Err(e))
    case None =>
      match FindFilial(st, id)
      case None => Response(st, Ok(false))
      case Some(entity) =>
        var m := AtualizarFilial(entity, req.nome, req.bairro, req.cnpj);
        match m.thrown
        case Some(e) => Response(st, Err(e))
        case None => UpdateFilial(st, m.state)
  }

  // ------------------------------------------------------------- Patio

  /** The first invalid field of a Patio request, as an `ArgumentException`. */
  function PatioInputError(req: PatioRequest): (err: Option<Error>)
    ensures err.None? <==> ValidarPatio(req.nome, req.limiteMotos).None?
    ensures err.Some? ==>
      err.value.ArgumentError? && Some(GeneralError(err.value.field)) == ValidarPatio(req.nome, req.limiteMotos)
  {
    if IsNullOrWhiteSpace(req.nome) then Some(ArgumentError(Nome))
    else if req.limiteMotos <= 0 then Some(ArgumentError(LimiteMotos))
    else None
  }

  /** `PatioUseCase.CreateAsync`: the branch id is passed through unchecked,
      so a request naming a missing branch is refused by the store, not by
      the use case. */
  function CreatePatio(st: Store, req: PatioRequest, freshId: Id): (r: Response<Patio>)
    ensures PatioInputError(req).Some? ==> r == Response(st, Err(PatioInputError(req).value))
    ensures PatioInputError(req).None? ==>
      var p := Patio(freshId, req.nome.value, req.limiteMotos, req.filialId);
      && PatioInvariant(p)
      && r == AddPatio(st, p)
    ensures r.result.Ok? <==>
      && PatioInputError(req).None?
      && freshId !in st.patios
      && Fits(req.nome.value, PatioNomeMax)
      && req.filialId in st.filiais
    ensures r.result.Err? ==> r.store == st && (r.result.error.ArgumentError? || r.result.error == PersistenceError)
    ensures Valid(st) ==> Valid(r.store)
    ensures EntitiesValid(st) ==> EntitiesValid(r.store)
  {
    match PatioInputError(req)
    case Some(e) => Response(st, Err(e))
    case None =>
      match NewPatio(freshId, req.nome, req.limiteMotos, req.filialId)
      case Err(e) => Response(st, Err(e))
      case Ok(p) => AddPatio(st, p)
  }

  /** `PatioUseCase.UpdateAsync`: replaces the name and the capacity only.
      The branch named in the request is ignored: a yard never moves to
      another branch. */
  function UpdatePatioUseCase(st: Store, id: Id, req: PatioRequest): (r: Response<bool>)
    ensures PatioInputError(req).Some? ==> r == Response(st, Err(PatioInputError(req).value))
    ensures PatioInputError(req).None? && id !in st.patios ==> r == Response(st, Ok(false))
    ensures Valid(st) && PatioInputError(req).None? && id in st.patios ==>
      var stored := st.patios[id];
      var updated := stored.(nome := req.nome.value, limiteMotos := req.limiteMotos);
      if Fits(req.nome.value, PatioNomeMax) then
        r == Response(st.(patios := st.patios[id := updated]), Ok(true))
      else
        r == Response(st, Err(PersistenceError))
    ensures id in st.patios && id in r.store.patios ==> r.store.patios[id].filialId == st.patios[id].filialId
    ensures Valid(st) ==> Valid(r.store)
    ensures EntitiesValid(st) ==> EntitiesValid(r.store)
    ensures r.store.filiais == st.filiais && r.store.motos == st.motos
  {
    match PatioInputError(req)
    case Some(e) => Response(st, Err(e))
    case None =>
      match FindPatio(st, id)
      case None => Response(st, Ok(false))
      case Some(entity) =>
        var m := AtualizarPatio(entity, req.nome, req.limiteMotos);
        match m.thrown
        case Some(e) => Response(st, Err(e))
        case None => UpdatePatio(st, m.state)
  }

  // -------------------------------------------------------------- Moto

  /** The row a Moto request describes. */
  function MotoOf(id: Id, req: MotoRequest): Moto
  {
    Moto(id, req.placa, req.chassi, req.numeroMotor, req.prioridade, req.patioId)
  }

  /** `MotoUseCase.CreateAsync`: an `ArgumentException` when no identifier
      is given; otherwise the vehicle is inserted. The yard's capacity is
      not consulted, so a full yard still receives it. */
  function CreateMoto(st: Store, req: MotoRequest, freshId: Id): (r: Response<Moto>)
    ensures !HasIdentifier(req.placa, req.chassi, req.numeroMotor) ==>
      r == Response(st, Err(ArgumentError(Identifiers)))
    ensures HasIdentifier(req.placa, req.chassi, req.numeroMotor) ==> r == AddMoto(st, MotoOf(freshId, req))
    ensures r.result.Ok? <==>
      && HasIdentifier(req.placa, req.chassi, req.numeroMotor)
      && freshId !in st.motos
      && MotoFits(MotoOf(freshId, req))
      && req.patioId in st.patios
    ensures r.result.Err? ==> r.store == st && r.result.error in {ArgumentError(Identifiers), PersistenceError}
    ensures Valid(st) ==> Valid(r.store)
    ensures EntitiesValid(st) ==> EntitiesValid(r.store)
  {
    if IsNullOrWhiteSpace(req.placa) && IsNullOrWhiteSpace(req.chassi) && IsNullOrWhiteSpace(req.numeroMotor) then
      Response(st, Err(ArgumentError(Identifiers)))
    else
      match NewMoto(freshId, req.placa, req.chassi, req.numeroMotor, req.prioridade, req.patioId)
      case Err(e) => Response(st, Err(e))
      case Ok(m) => AddMoto(st, m)
  }

  /** `MotoUseCase.UpdateAsync` as its authors evidently intended: missing
      identifiers raise a plain `Exception` (unlike creation); an unknown id
      gives `false`; otherwise every field but the id is replaced, so the
      vehicle moves to the yard the request names, which must exist. The
      code as written keeps the old yard (`UpdateMotoAsWritten`). */
  function UpdateMotoUseCase(st: Store, id: Id, req: MotoRequest): (r: Response<bool>)
    ensures !HasIdentifier(req.placa, req.chassi, req.numeroMotor) ==>
      r == Response(st, Err(GeneralError(Identifiers)))
    ensures HasIdentifier(req.placa, req.chassi, req.numeroMotor) && id !in st.motos ==>
      r == Response(st, Ok(false))
    ensures Valid(st) && HasIdentifier(req.placa, req.chassi, req.numeroMotor) && id in st.motos ==>
      if MotoFits(MotoOf(id, req)) && req.patioId in st.patios then
        r == Response(st.(motos := st.motos[id := MotoOf(id, req)]), Ok(true))
      else
        r == Response(st, Err(PersistenceError))
    ensures Valid(st) ==> Valid(r.store)
    ensures EntitiesValid(st) ==> EntitiesValid(r.store)
    ensures r.store.filiais == st.filiais && r.store.patios == st.patios
  {
    if IsNullOrWhiteSpace(req.placa) && IsNullOrWhiteSpace(req.chassi) && IsNullOrWhiteSpace(req.numeroMotor) then
      Response(st, Err(GeneralError(Identifiers)))
    else
      match FindMoto(st, id)
      case None => Response(st, Ok(false))
      case Some(entity) =>
        var m := AtualizarMoto(entity, req.placa, req.chassi, req.numeroMotor, req.prioridade, req.patioId);
        match m.thrown
        case Some(e) => Response(st, Err(e))
        case None => UpdateMoto(st, m.state)
  }

  /** `MotoUseCase.UpdateAsync` as written. `GetByIdAsync` loads the vehicle
      together with its `Patio`; `AtualizarDados` changes `PatioId` but not
      that navigation; `Attach` then takes the foreign key from the loaded
      navigation. The row is written back under its old yard, so no vehicle
      ever changes yard and the requested yard is never checked. */
  function UpdateMotoAsWritten(st: Store, id: Id, req: MotoRequest): (r: Response<bool>)
    ensures !HasIdentifier(req.placa, req.chassi, req.numeroMotor) ==>
      r == Response(st, Err(GeneralError(Identifiers)))
    ensures HasIdentifier(req.placa, req.chassi, req.numeroMotor) && id !in st.motos ==>
      r == Response(st, Ok(false))
    ensures Valid(st) && HasIdentifier(req.placa, req.chassi, req.numeroMotor) && id in st.motos ==>
      if MotoFits(MotoOf(id, req)) then
        r == Response(st.(motos := st.motos[id := MotoOf(id, req).(patioId := st.motos[id].patioId)]), Ok(true))
      else
        r == Response(st, Err(PersistenceError))
    ensures Valid(st) ==> forall k :: k in st.motos && k in r.store.motos ==>
      r.store.motos[k].patioId == st.motos[k].patioId
    ensures Valid(st) ==> Valid(r.store)
    ensures EntitiesValid(st) ==> EntitiesValid(r.store)
    ensures r.store.filiais == st.filiais && r.store.patios == st.patios
  {
    if IsNullOrWhiteSpace(req.placa) && IsNullOrWhiteSpace(req.chassi) && IsNullOrWhiteSpace(req.numeroMotor) then
      Response(st, Err(GeneralError(Identifiers)))
    else
      match FindMoto(st, id)
      case None => Response(st, Ok(false))
      case Some(entity) =>
        var m := AtualizarMoto(entity, req.placa, req.chassi, req.numeroMotor, req.prioridade, req.patioId);
        match m.thrown
        case Some(e) => Response(st, Err(e))
        case None => UpdateMoto(st, m.state.(patioId := entity.patioId))
  }

  /** Where the two readings part: a request naming another yard moves the
      vehicle under the intended update, but leaves it where it was as
      written; a request naming a missing yard is refused as intended, but
      reported as a success as written. */
  lemma YardChangeLost(st: Store, id: Id, req: MotoRequest)
    requires Valid(st) && id in st.motos
    requires HasIdentifier(req.placa, req.chassi, req.numeroMotor) && MotoFits(MotoOf(id, req))
    requires req.patioId != st.motos[id].patioId
    ensures UpdateMotoAsWritten(st, id, req).store.motos[id].patioId == st.motos[id].patioId
    ensures req.patioId in st.patios ==>
      UpdateMotoUseCase(st, id, req).store.motos[id].patioId == req.patioId
    ensures req.patioId !in st.patios ==>
      && UpdateMotoAsWritten(st, id, req).result == Ok(true)
      && UpdateMotoUseCase(st, id, req).result == Err(PersistenceError)
  {
  }

  /** The same missing identifiers are reported as different exceptions by
      creation and by update. */
  lemma MotoErrorKindsDiffer(st: Store, id: Id, req: MotoRequest, freshId: Id)
    requires !HasIdentifier(req.placa, req.chassi, req.numeroMotor)
    ensures CreateMoto(st, req, freshId).result == Err(ArgumentError(Identifiers))
    ensures UpdateMotoUseCase(st, id, req).result == Err(GeneralError(Identifiers))
  {
  }

  /** A yard with capacity 1 that already holds one vehicle. */
  const FullYard: Patio := Patio(2, "Patio", 1, 1)
  const ParkedMoto: Moto := Moto(3, Some("ABC1234"), None, None, 0, 2)
  const FullYardStore: Store := Store(
    map[1 := Filial(1, "Filial", "Centro", "12.345.678/0001-99")],
    map[2 := FullYard],
    map[3 := ParkedMoto])
  const ExtraMoto: Moto := Moto(4, Some("XYZ9876"), None, None, 0, 2)

  /** The full yard's store is consistent and the yard holds one vehicle. */
  lemma FullYardFacts()
    ensures Valid(FullYardStore)
    ensures MotosOf(FullYardStore, 2) == {3}
  {
    FullYardFiliaisValid();
    FullYardPatiosValid();
    FullYardMotosValid();
    assert FullYardStore.motos.Keys == {3};
  }

  /** The branch table of the full yard's store satisfies its part of `Valid`. */
  lemma FullYardFiliaisValid()
    ensures forall k :: k in FullYardStore.filiais ==>
              FullYardStore.filiais[k].id == k && FilialFits(FullYardStore.filiais[k])
  {
    FullYardFits();
    assert FullYardStore.filiais.Keys == {1};
  }

  /** The yard table of the full yard's store satisfies its part of `Valid`. */
  lemma FullYardPatiosValid()
    ensures forall k :: k in FullYardStore.patios ==>
              FullYardStore.patios[k].id == k && PatioFits(FullYardStore.patios[k])
              && FullYardStore.patios[k].filialId in FullYardStore.filiais
  {
    FullYardFits();
    assert FullYardStore.patios.Keys == {2};
  }

  /** The vehicle table of the full yard's store satisfies its part of `Valid`. */
  lemma FullYardMotosValid()
    ensures forall k :: k in FullYardStore.motos ==>
              FullYardStore.motos[k].id == k && MotoFits(FullYardStore.motos[k])
              && FullYardStore.motos[k].patioId in FullYardStore.patios
  {
    PlatesFit();
    assert FullYardStore.motos.Keys == {3};
  }

  /** The plates of both vehicles fit the 10-character column. */
  lemma PlatesFit()
    ensures MotoFits(ParkedMoto) && MotoFits(ExtraMoto)
  {
    BmpLength("ABC1234");
    BmpLength("XYZ9876");
  }

  /** The rows of the full yard's store fit their columns. */
  lemma FullYardFits()
    ensures FilialFits(FullYardStore.filiais[1]) && PatioFits(FullYard)
  {
    ShortFits("Filial", FilialNomeMax);
    ShortFits("Centro", FilialBairroMax);
    ShortFits("Patio", PatioNomeMax);
    DocumentedExampleAccepted();
  }

  /** Creating the second vehicle in the full yard stores it. */
  lemma ExtraMotoCreated()
    ensures CreateMoto(FullYardStore, MotoRequest(Some("XYZ9876"), None, None, 0, 2), 4)
         == Response(FullYardStore.(motos := map[3 := ParkedMoto, 4 := ExtraMoto]), Ok(ExtraMoto))
  {
    assert !IsWhiteSpace("XYZ9876"[0]);
  }

  /** Capacity is advisory: a yard with capacity 1 that already holds one
      vehicle, so that `PodeAdicionarMoto` is false, still accepts a second
      vehicle through the create use case. */
  lemma CreateMotoIgnoresCapacity()
    ensures var r := CreateMoto(FullYardStore, MotoRequest(Some("XYZ9876"), None, None, 0, 2), 4);
            && Valid(FullYardStore)
            && !PodeAdicionarMoto(FullYardStore, FullYard)
            && r.result.Ok?
            && |MotosOf(r.store, 2)| == 2 > FullYard.limiteMotos
  {
    FullYardFacts();
    PlatesFit();
    ExtraMotoCreated();
    var after := FullYardStore.(motos := map[3 := ParkedMoto, 4 := ExtraMoto]);
    assert MotosOf(after, 2) == {3, 4};
  }
}
