/** The three self-validating entities: Filial (branch), Patio (yard) and
    Moto (vehicle). Each is created by a validating constructor and changed
    only by `AtualizarDados`, which validates before it assigns anything. */
module Entities {
  import opened Base
  import opened Text

  /** Priority of a Moto. The enumeration's declaration is not part of this
      model; the value is stored as a number and never validated, so any
      integer code is accepted. */
  type Prioridade = int

  /** A branch. Its yards are the Patio rows whose `filialId` is `id`. */
  datatype Filial = Filial(id: Id, nome: string, bairro: string, cnpj: string)

  /** A yard of one branch. Its vehicles are the Moto rows whose `patioId`
      is `id`. */
  datatype Patio = Patio(id: Id, nome: string, limiteMotos: int, filialId: Id)

  /** A vehicle parked in one yard. The three identifiers are nullable. */
  datatype Moto = Moto(
    id: Id,
    placa: NString,
    chassi: NString,
    numeroMotor: NString,
    prioridade: Prioridade,
    patioId: Id)

  /** The state of an object after a mutating call, together with the
      exception the call threw, if any. */
  datatype Mutation<T> = Mutation(state: T, thrown: Option<Error>)

  // ---------------------------------------------------------------- Filial

  /** What `Filial` guarantees of every instance: the three text fields are
      set and not blank. */
  predicate FilialInvariant(f: Filial)
  {
    !Blank(f.nome) && !Blank(f.bairro) && !Blank(f.cnpj)
  }

  /** `Filial.Validar`: reports the first blank field, in the order nome,
      bairro, cnpj. The CNPJ format is not checked here. */
  function ValidarFilial(nome: NString, bairro: NString, cnpj: NString): (err: Option<Error>)
    ensures err.None? <==>
      !IsNullOrWhiteSpace(nome) && !IsNullOrWhiteSpace(bairro) && !IsNullOrWhiteSpace(cnpj)
    ensures err == Some(GeneralError(Nome)) <==> IsNullOrWhiteSpace(nome)
    ensures err == Some(GeneralError(Bairro)) <==>
      !IsNullOrWhiteSpace(nome) && IsNullOrWhiteSpace(bairro)
    ensures err == Some(GeneralError(Cnpj)) <==>
      !IsNullOrWhiteSpace(nome) && !IsNullOrWhiteSpace(bairro) && IsNullOrWhiteSpace(cnpj)
  {
    if IsNullOrWhiteSpace(nome) then Some(GeneralError(Nome))
    else if IsNullOrWhiteSpace(bairro) then Some(GeneralError(Bairro))
    else if IsNullOrWhiteSpace(cnpj) then Some(GeneralError(Cnpj))
    else None
  }

  /** The `Filial` constructor; `id` is the freshly generated identity. */
  function NewFilial(id: Id, nome: NString, bairro: NString, cnpj: NString): (r: Result<Filial>)
    ensures r.Ok? <==>
      !IsNullOrWhiteSpace(nome) && !IsNullOrWhiteSpace(bairro) && !IsNullOrWhiteSpace(cnpj)
    ensures r.Ok? ==>
      && r.value.id == id
      && Some(r.value.nome) == nome
      && Some(r.value.bairro) == bairro
      && Some(r.value.cnpj) == cnpj
      && FilialInvariant(r.value)
    ensures r.Err? ==> Some(r.error) == ValidarFilial(nome, bairro, cnpj)
  {
    match ValidarFilial(nome, bairro, cnpj)
    case Some(e) => Err(e)
    case None => Ok(Filial(id, nome.value, bairro.value, cnpj.value))
  }

  /** `Filial.AtualizarDados`: on invalid input it throws before assigning,
      so the object is unchanged; otherwise it replaces the three text fields
      and nothing else. */
  function AtualizarFilial(f: Filial, nome: NString, bairro: NString, cnpj: NString): (m: Mutation<Filial>)
    ensures m.thrown == ValidarFilial(nome, bairro, cnpj)
    ensures m.thrown.Some? ==> m.state == f
    ensures m.thrown.None? ==>
      && m.state.id == f.id
      && Some(m.state.nome) == nome
      && Some(m.state.bairro) == bairro
      && Some(m.state.cnpj) == cnpj
    ensures FilialInvariant(f) ==> FilialInvariant(m.state)
  {
    match ValidarFilial(nome, bairro, cnpj)
    case Some(e) => Mutation(f, Some(e))
    case None => Mutation(f.(nome := nome.value, bairro := bairro.value, cnpj := cnpj.value), None)
  }

  // ----------------------------------------------------------------- Patio

  /** What `Patio` guarantees of every instance: a non-blank name and a
      positive capacity. */
  predicate PatioInvariant(p: Patio)
  {
    !Blank(p.nome) && p.limiteMotos > 0
  }

  /** `Patio.Validar`: the name is checked before the capacity. */
  function ValidarPatio(nome: NString, limiteMotos: int): (err: Option<Error>)
    ensures err.None? <==> !IsNullOrWhiteSpace(nome) && limiteMotos > 0
    ensures err == Some(GeneralError(Nome)) <==> IsNullOrWhiteSpace(nome)
    ensures err == Some(GeneralError(LimiteMotos)) <==> !IsNullOrWhiteSpace(nome) && limiteMotos <= 0
  {
    if IsNullOrWhiteSpace(nome) then Some(GeneralError(Nome))
    else if limiteMotos <= 0 then Some(GeneralError(LimiteMotos))
    else None
  }

  /** The `Patio` constructor; `id` is the freshly generated identity. */
  function NewPatio(id: Id, nome: NString, limiteMotos: int, filialId: Id): (r: Result<Patio>)
    ensures r.Ok? <==> !IsNullOrWhiteSpace(nome) && limiteMotos > 0
    ensures r.Ok? ==>
      && r.value.id == id
      && Some(r.value.nome) == nome
      && r.value.limiteMotos == limiteMotos
      && r.value.filialId == filialId
      && PatioInvariant(r.value)
    ensures r.Err? ==> Some(r.error) == ValidarPatio(nome, limiteMotos)
  {
    match ValidarPatio(nome, limiteMotos)
    case Some(e) => Err(e)
    case None => Ok(Patio(id, nome.value, limiteMotos, filialId))
  }

  /** `Patio.AtualizarDados`: validates first; on success replaces the name
      and the capacity, keeping the identity and the owning branch. */
  function AtualizarPatio(p: Patio, nome: NString, limiteMotos: int): (m: Mutation<Patio>)
    ensures m.thrown == ValidarPatio(nome, limiteMotos)
    ensures m.thrown.Some? ==> m.state == p
    ensures m.thrown.None? ==>
      && m.state.id == p.id
      && m.state.filialId == p.filialId
      && Some(m.state.nome) == nome
      && m.state.limiteMotos == limiteMotos
    ensures PatioInvariant(p) ==> PatioInvariant(m.state)
  {
    match ValidarPatio(nome, limiteMotos)
    case Some(e) => Mutation(p, Some(e))
    case None => Mutation(p.(nome := nome.value, limiteMotos := limiteMotos), None)
  }

  // ------------------------------------------------------------------ Moto

  /** At least one of plate, chassis and engine number is given. */
  predicate HasIdentifier(placa: NString, chassi: NString, numeroMotor: NString)
  {
    !IsNullOrWhiteSpace(placa) || !IsNullOrWhiteSpace(chassi) || !IsNullOrWhiteSpace(numeroMotor)
  }

  /** What `Moto` guarantees of every instance. */
  predicate MotoInvariant(m: Moto)
  {
    HasIdentifier(m.placa, m.chassi, m.numeroMotor)
  }

  /** `Moto.Validar`. */
  function ValidarMoto(placa: NString, chassi: NString, numeroMotor: NString): (err: Option<Error>)
    ensures err.None? <==> HasIdentifier(placa, chassi, numeroMotor)
    ensures err.Some? ==> err.value == GeneralError(Identifiers)
  {
    if IsNullOrWhiteSpace(placa) && IsNullOrWhiteSpace(chassi) && IsNullOrWhiteSpace(numeroMotor)
    then Some(GeneralError(Identifiers))
    else None
  }

  /** The `Moto` constructor; `id` is the freshly generated identity.
      Neither the priority nor the yard is checked. */
  function NewMoto(
    id: Id, placa: NString, chassi: NString, numeroMotor: NString,
    prioridade: Prioridade, patioId: Id): (r: Result<Moto>)
    ensures r.Ok? <==> HasIdentifier(placa, chassi, numeroMotor)
    ensures r.Ok? ==>
      && r.value == Moto(id, placa, chassi, numeroMotor, prioridade, patioId)
      && MotoInvariant(r.value)
    ensures r.Err? ==> r.error == GeneralError(Identifiers)
  {
    match ValidarMoto(placa, chassi, numeroMotor)
    case Some(e) => Err(e)
    case None => Ok(Moto(id, placa, chassi, numeroMotor, prioridade, patioId))
  }

  /** `Moto.AtualizarDados`: validates first; on success replaces every field
      except the identity, including the yard the vehicle belongs to. */
  function AtualizarMoto(
    m: Moto, placa: NString, chassi: NString, numeroMotor: NString,
    prioridade: Prioridade, patioId: Id): (u: Mutation<Moto>)
    ensures u.thrown == ValidarMoto(placa, chassi, numeroMotor)
    ensures u.thrown.Some? ==> u.state == m
    ensures u.thrown.None? ==> u.state == Moto(m.id, placa, chassi, numeroMotor, prioridade, patioId)
    ensures MotoInvariant(m) ==> MotoInvariant(u.state)
  {
    match ValidarMoto(placa, chassi, numeroMotor)
    case Some(e) => Mutation(m, Some(e))
    case None => Mutation(m.(placa := placa, chassi := chassi, numeroMotor := numeroMotor,
                             prioridade := prioridade, patioId := patioId), None)
  }
}
