/** The inputs of the use cases: the create/update request bodies and the
    listing parameters, with the data-annotation rules of `FilialRequest`. */
module Requests {
  import opened Base
  import opened Text
  import opened Entities
  import opened Cnpj

  /** Body of a Filial create or update. */
  datatype FilialRequest = FilialRequest(nome: NString, bairro: NString, cnpj: NString)

  /** Body of a Patio create or update. */
  datatype PatioRequest = PatioRequest(nome: NString, limiteMotos: int, filialId: Id)

  /** Body of a Moto create or update. */
  datatype MotoRequest = MotoRequest(
    placa: NString,
    chassi: NString,
    numeroMotor: NString,
    prioridade: Prioridade,
    patioId: Id)

  /** Listing parameters shared by the three paginated requests. The sort
      fields they also carry are never read. */
  datatype PaginatedRequest = PaginatedRequest(pageNumber: int, pageSize: int, search: NString)

  /** The parameters a listing request has when the client sends none. */
  const FilialPaginatedDefault: PaginatedRequest := PaginatedRequest(1, 10, None)
  const PatioPaginatedDefault: PaginatedRequest := PaginatedRequest(0, 10, None)
  const MotoPaginatedDefault: PaginatedRequest := PaginatedRequest(1, 10, None)

  /** Model validation of a `FilialRequest`: `[Required]` on each field and
      the CNPJ `[RegularExpression]`. */
  predicate FilialRequestAccepted(req: FilialRequest)
  {
    && RequiredAttributeAccepts(req.nome)
    && RequiredAttributeAccepts(req.bairro)
    && RequiredAttributeAccepts(req.cnpj)
    && RegexAttributeAccepts(CnpjPattern, req.cnpj)
  }

  /** A request passes model validation exactly when name and district are
      present and not blank and the CNPJ has the punctuated 18-character
      layout; such a request also passes every check of the Filial entity,
      and its CNPJ fits the 20-character column. */
  lemma FilialRequestAcceptedIff(req: FilialRequest)
    ensures FilialRequestAccepted(req) <==>
      && !IsNullOrWhiteSpace(req.nome)
      && !IsNullOrWhiteSpace(req.bairro)
      && req.cnpj.Some? && IsCnpjShape(req.cnpj.value)
    ensures FilialRequestAccepted(req) ==>
      && ValidarFilial(req.nome, req.bairro, req.cnpj).None?
      && |req.cnpj.value| == 18
      && Utf16Length(req.cnpj.value) == 18
  {
    CnpjFieldAccepted(req.cnpj);
    if FilialRequestAccepted(req) {
      ShapeLength(req.cnpj.value);
    }
  }

  /** The entity layer does not check the CNPJ layout: a request the
      annotation rejects still yields a valid Filial. */
  lemma EntityAcceptsUnformattedCnpj()
    ensures !FilialRequestAccepted(FilialRequest(Some("Centro"), Some("Se"), Some("abc")))
    ensures NewFilial(0, Some("Centro"), Some("Se"), Some("abc")).Ok?
  {
    var req := FilialRequest(Some("Centro"), Some("Se"), Some("abc"));
    FilialRequestAcceptedIff(req);
    assert !IsWhiteSpace('C') && !IsWhiteSpace('S') && !IsWhiteSpace('a');
    assert "Centro"[0] == 'C' && "Se"[0] == 'S' && "abc"[0] == 'a';
  }
}
