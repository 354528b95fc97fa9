/** The `BuscadorDeCEP` component: its four `useState` variables as fields
    and its handlers as methods that update them in place. Each handler is
    proved against the matching transition of module `CepLookup`. */
module Buscador {
  import opened CepInput
  import opened CepLookup

  class BuscadorDeCep {
    var cep: string
    var endereco: Option<Address>
    var erro: string
    var carregando: bool

    /** The field only ever holds digits, at most eight of them. */
    predicate Valid()
      reads this
    {
      IsSanitised(cep)
    }

    function State(): Snapshot
      reads this
    {
      Snapshot(cep, endereco, erro, carregando)
    }

    /** The initial values passed to `useState`. */
    constructor ()
      ensures Valid()
      ensures State() == Initial()
      ensures !ShowsLoading(State()) && !ShowsError(State()) && !ShowsAddress(State())
    {
      cep := "";
      endereco := None;
      erro := "";
      carregando := false;
    }

    /** `limparBusca`: empties the field, the address and the message; the
        loading flag is not touched. */
    method LimparBusca()
      requires Valid()
      modifies this
      ensures Valid()
      ensures cep == "" && endereco == None && erro == ""
      ensures carregando == old(carregando)
      ensures State() == Clear(old(State()))
    {
      cep := "";
      endereco := None;
      erro := "";
    }

    /** `handleCepChange`: stores the sanitised text and nothing else. */
    method HandleCepChange(raw: string)
      requires Valid()
      modifies this`cep
      ensures Valid()
      ensures cep == Sanitise(raw)
      ensures State() == Edit(old(State()), raw)
    {
      cep := Sanitise(raw);
    }

    /** The first phase of `buscarCEP`: validation, then loading is shown,
        the message and address are cleared and the request is returned.
        A code of the wrong length only sets the message: an address found
        earlier stays. */
    method IniciarBusca() returns (request: Option<string>)
      requires Valid()
      modifies this
      ensures Valid() && cep == old(cep)
      ensures request.Some? <==> |cep| == CepLength
      ensures request.None? ==>
        erro == MsgInvalidCep && endereco == old(endereco) && carregando == old(carregando)
      ensures request.Some? ==>
        request.value == UrlPrefix + cep + UrlSuffix && AllDigits(cep) &&
        carregando && erro == "" && endereco == None
      ensures (State(), request) == Start(old(State()))
    {
      if |cep| != CepLength {
        erro := MsgInvalidCep;
        request := None;
        return;
      }
      carregando := true;
      erro := "";
      endereco := None;
      request := Some(ViaCepUrl(cep));
    }

    /** The second phase of `buscarCEP`: the body of the `try` (with the
        outcome of `fetch` and `json` as a parameter), its `catch` and its
        `finally`. */
    method ConcluirBusca(outcome: Outcome)
      requires Valid()
      modifies this
      ensures Valid() && cep == old(cep) && !carregando
      ensures outcome.Found? ==> endereco == Some(outcome.data) && erro == old(erro)
      ensures outcome.NotFound? ==> erro == MsgNotFound && endereco == old(endereco)
      ensures outcome.Failure? ==> erro == MsgFailure && endereco == old(endereco)
      ensures State() == Settle(old(State()), outcome)
    {
      match outcome {
        case Found(data) =>
          endereco := Some(data);
        case NotFound =>
          erro := MsgNotFound;
        case Failure =>
          erro := MsgFailure;
      }
      carregando := false;
    }

    /** A whole `buscarCEP` call with nothing else happening while the
        request is in flight. */
    method BuscarCep(outcome: Outcome) returns (request: Option<string>)
      requires Valid()
      modifies this
      ensures Valid() && cep == old(cep)
      ensures request.Some? <==> |cep| == CepLength
      ensures request.None? ==>
        erro == MsgInvalidCep && endereco == old(endereco) && carregando == old(carregando)
      ensures request.Some? ==>
        request.value == UrlPrefix + cep + UrlSuffix && !carregando &&
        match outcome
        case Found(d) => endereco == Some(d) && erro == ""
        case NotFound => endereco == None && erro == MsgNotFound
        case Failure => endereco == None && erro == MsgFailure
      ensures State() == Search(old(State()), outcome)
    {
      request := IniciarBusca();
      if request.Some? {
        ConcluirBusca(outcome);
      }
    }
  }

  /** The quirk of the component run on the class: after a code is found,
      shortening the field and searching again shows the validation message
      next to the old address. */
  method ValidationKeepsAddress(a: Address) returns (c: BuscadorDeCep)
    ensures fresh(c) && c.Valid()
    ensures c.erro == MsgInvalidCep && c.endereco == Some(a) && !c.carregando
  {
    c := new BuscadorDeCep();
    c.HandleCepChange("01310-930");
    SanitiseFixpoint(c.cep);
    assert |c.cep| == CepLength by {
      SanitiseSelectsFirstDigits("01310-930");
    }
    var first := c.BuscarCep(Found(a));
    c.HandleCepChange("123");
    var second := c.BuscarCep(Failure);
  }
}
