/** A complete run through the use cases: a branch, one yard under it and
    two vehicles in that yard are created, the yard is found by name, and
    deleting the branch removes everything below it. */
module Scenario {
  import opened Base
  import opened Text
  import opened Pagination
  import opened Cnpj
  import opened Entities
  import opened Store
  import opened Requests
  import opened UseCases

  const BranchRequest: FilialRequest := FilialRequest(Some("Branch A"), Some("Downtown"), Some("12.345.678/0001-99"))
  const YardRequest: PatioRequest := PatioRequest(Some("Yard 1"), 2, 1)
  const FirstVehicle: MotoRequest := MotoRequest(Some("ABC1234"), None, None, 0, 2)
  const SecondVehicle: MotoRequest := MotoRequest(None, Some("XYZ999"), None, 0, 2)

  const Branch: Filial := Filial(1, "Branch A", "Downtown", "12.345.678/0001-99")
  const Yard: Patio := Patio(2, "Yard 1", 2, 1)
  const Vehicle1: Moto := Moto(3, Some("ABC1234"), None, None, 0, 2)
  const Vehicle2: Moto := Moto(4, None, Some("XYZ999"), None, 0, 2)

  /** The stores after each creation. */
  const S1: Store := Store(map[1 := Branch], map[], map[])
  const S2: Store := Store(map[1 := Branch], map[2 := Yard], map[])
  const S3: Store := Store(map[1 := Branch], map[2 := Yard], map[3 := Vehicle1])
  const S4: Store := Store(map[1 := Branch], map[2 := Yard], map[3 := Vehicle1, 4 := Vehicle2])

  lemma CreateBranch()
    ensures CreateFilial(EmptyStore, BranchRequest, 1) == Response(S1, Ok(Branch))
  {
    assert !IsWhiteSpace("Branch A"[0]) && !IsWhiteSpace("Downtown"[0]) && !IsWhiteSpace("12.345.678/0001-99"[0]);
    assert FilialInputError(BranchRequest).None?;
    BranchFits();
  }

  /** The sample branch fits its columns. */
  lemma BranchFits()
    ensures FilialFits(Branch)
  {
    ShortFits("Branch A", FilialNomeMax);
    ShortFits("Downtown", FilialBairroMax);
    DocumentedExampleAccepted();
  }

  /** The sample vehicles fit their columns. */
  lemma VehiclesFit()
    ensures MotoFits(Vehicle1) && MotoFits(Vehicle2)
  {
    BmpLength("ABC1234");
    ShortFits("XYZ999", MotoChassiMax);
  }

  lemma CreateYard()
    ensures CreatePatio(S1, YardRequest, 2) == Response(S2, Ok(Yard))
  {
    assert !IsWhiteSpace("Yard 1"[0]);
    assert PatioInputError(YardRequest).None?;
  }

  lemma CreateVehicles()
    ensures CreateMoto(S2, FirstVehicle, 3) == Response(S3, Ok(Vehicle1))
    ensures CreateMoto(S3, SecondVehicle, 4) == Response(S4, Ok(Vehicle2))
  {
    assert !IsWhiteSpace("ABC1234"[0]) && !IsWhiteSpace("XYZ999"[0]);
    assert HasIdentifier(FirstVehicle.placa, FirstVehicle.chassi, FirstVehicle.numeroMotor);
    assert HasIdentifier(SecondVehicle.placa, SecondVehicle.chassi, SecondVehicle.numeroMotor);
    VehiclesFit();
  }

  /** Every step succeeds, and the final store holds the four rows and
      satisfies every constraint of the schema and of the entities. */
  lemma ScenarioCreates()
    ensures var r1 := CreateFilial(EmptyStore, BranchRequest, 1);
            var r2 := CreatePatio(r1.store, YardRequest, 2);
            var r3 := CreateMoto(r2.store, FirstVehicle, 3);
            var r4 := CreateMoto(r3.store, SecondVehicle, 4);
            && r1.result.Ok? && r2.result.Ok? && r3.result.Ok? && r4.result.Ok?
            && r4.store == S4
    ensures Valid(S4) && EntitiesValid(S4)
  {
    CreateBranch();
    CreateYard();
    CreateVehicles();
    assert Valid(EmptyStore) && EntitiesValid(EmptyStore);
  }

  /** The search for "Yard 1" selects the yard. */
  lemma YardSelected()
    ensures PatioSelected(Yard, Some("Yard 1"))
  {
    assert !IsWhiteSpace("Yard 1"[0]) && !IsWhiteSpace("Yard 1"[5]);
    TrimUnpadded("Yard 1");
    ContainsSelf("Yard 1");
  }

  /** ... and, the yard being the only one, selects exactly it. */
  lemma YardMatches()
    ensures MatchingPatios(S4, Some("Yard 1")) == {Yard}
  {
    YardSelected();
    assert S4.patios == map[2 := Yard];
    assert S4.patios[2] == Yard;
    assert S4.patios.Values == {Yard};
  }

  /** The ordered result of that search is the yard alone. */
  lemma YardListed()
    ensures OrderedPatios(S4, Some("Yard 1")) == [Yard]
  {
    ScenarioCreates();
    YardMatches();
    var rows := OrderedPatios(S4, Some("Yard 1"));
    assert |rows| == 1 && Yard in rows;
  }

  /** Searching the yards for "Yard 1" gives exactly that yard, on a single
      page with no neighbours. */
  lemma ScenarioFindsYard()
    ensures var page := GetPatios(S4, PaginatedRequest(1, 10, Some("Yard 1")));
            && page.items == [Yard]
            && page.total == 1
            && page.TotalPages() == 1
            && !page.HasNext()
            && !page.HasPrevious()
  {
    YardListed();
    assert GetPatios(S4, PaginatedRequest(1, 10, Some("Yard 1"))) == Paginate([Yard], 1, 10);
  }

  /** Deleting the branch takes its yard and both vehicles with it. */
  lemma ScenarioCascade()
    ensures var r := DeleteFilial(S4, 1);
            && r.result == Ok(true)
            && FindFilial(r.store, 1).None?
            && FindPatio(r.store, 2).None?
            && FindMoto(r.store, 3).None?
            && FindMoto(r.store, 4).None?
            && r.store == EmptyStore
  {
    var st := S4;
    assert PatiosOf(st, 1) == {2};
    var after := DeleteFilial(st, 1).store;
    assert after.filiais == map[];
    assert after.patios == map[];
    assert after.motos == map[];
  }
}
