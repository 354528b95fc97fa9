/** The state of the CEP lookup widget as a value, and its transitions:
    clearing the form, editing the field, and a search in its two phases
    (validate and start the request, then settle it with the outcome of the
    request). The class in module `Buscador` is proved against these. */
module CepLookup {
  import opened CepInput

  datatype Option<T> = None | Some(value: T)

  /** The fields of the ViaCEP response that the widget displays. */
  datatype Address = Address(logradouro: string, bairro: string, localidade: string, uf: string, ddd: string)

  /** How the request settles: the JSON body had no truthy `erro` key, it
      had one, or fetching or parsing threw. */
  datatype Outcome = Found(data: Address) | NotFound | Failure

  const MsgInvalidCep := "O CEP deve conter 8 dígitos."
  const MsgNotFound := "CEP não encontrado."
  const MsgFailure := "Ocorreu um erro na busca. Tente novamente."

  const UrlPrefix := "https://viacep.com.br/ws/"
  const UrlSuffix := "/json/"

  /** The four state variables of the component. */
  datatype Snapshot = Snapshot(cep: string, endereco: Option<Address>, erro: string, carregando: bool)

  function Initial(): Snapshot {
    Snapshot("", None, "", false)
  }

  /** What the page shows: the loading line, the error line, the address box. */
  predicate ShowsLoading(s: Snapshot) { s.carregando }
  predicate ShowsError(s: Snapshot) { s.erro != "" }
  predicate ShowsAddress(s: Snapshot) { s.endereco.Some? }

  /** The request issued for a code. */
  function ViaCepUrl(cep: string): (url: string)
    ensures |url| == |UrlPrefix| + |cep| + |UrlSuffix|
    ensures UrlPrefix <= url
    ensures url[|UrlPrefix|..|UrlPrefix| + |cep|] == cep
    ensures url[|UrlPrefix| + |cep|..] == UrlSuffix
  {
    UrlPrefix + cep + UrlSuffix
  }

  /** Different codes are looked up at different addresses. */
  lemma ViaCepUrlInjective(a: string, b: string)
    requires ViaCepUrl(a) == ViaCepUrl(b)
    ensures a == b
  {
  }

  /** `limparBusca`: the loading flag is left as it is. */
  function Clear(s: Snapshot): Snapshot {
    s.(cep := "", endereco := None, erro := "")
  }

  /** `handleCepChange`: only the field changes. */
  function Edit(s: Snapshot, raw: string): Snapshot {
    s.(cep := Sanitise(raw))
  }

  /** Whether a search may start: the check is on the length only. */
  predicate Startable(s: Snapshot) {
    |s.cep| == CepLength
  }

  /** The first phase of `buscarCEP`: the state after validation, and the
      request made, if any. A failed validation only sets the message. */
  function Start(s: Snapshot): (Snapshot, Option<string>) {
    if !Startable(s) then (s.(erro := MsgInvalidCep), None)
    else (s.(carregando := true, erro := "", endereco := None), Some(ViaCepUrl(s.cep)))
  }

  /** The second phase of `buscarCEP`: the `try`/`catch`/`finally` body. */
  function Settle(s: Snapshot, o: Outcome): Snapshot {
    match o
    case Found(d) => s.(endereco := Some(d), carregando := false)
    case NotFound => s.(erro := MsgNotFound, carregando := false)
    case Failure => s.(erro := MsgFailure, carregando := false)
  }

  /** A whole `buscarCEP` run, with no other event between its phases. */
  function Search(s: Snapshot, o: Outcome): Snapshot {
    var (t, request) := Start(s);
    if request.Some? then Settle(t, o) else t
  }

  /** A failed validation makes no request, sets the message and keeps
      everything else, including an address found earlier. */
  lemma StartRejects(s: Snapshot)
    requires |s.cep| != CepLength
    ensures Start(s).1 == None
    ensures Start(s).0 == Snapshot(s.cep, s.endereco, MsgInvalidCep, s.carregando)
  {
  }

  /** A code of the right length clears the previous result, shows loading,
      and requests the ViaCEP address of exactly that code. */
  lemma StartAccepts(s: Snapshot)
    requires |s.cep| == CepLength
    ensures Start(s).0 == Snapshot(s.cep, None, "", true)
    ensures Start(s).1 == Some(UrlPrefix + s.cep + UrlSuffix)
  {
  }

  /** Settling always stops loading, keeps the code, and then exactly one of
      the error line and the address box is shown when it started from a
      cleared result. */
  lemma SettleShowsOneRegion(s: Snapshot, o: Outcome)
    requires s.erro == "" && s.endereco == None
    ensures var t := Settle(s, o);
      !ShowsLoading(t) && t.cep == s.cep &&
      (ShowsError(t) <==> !ShowsAddress(t)) &&
      (ShowsAddress(t) <==> o.Found?) &&
      (o.Found? ==> t.endereco == Some(o.data))
  {
  }

  /** A completed search on a valid code ends in one of the three outcomes
      with exactly the message the component uses for it. */
  lemma SearchSettles(s: Snapshot, o: Outcome)
    requires Startable(s)
    ensures Search(s, o) ==
      match o
      case Found(d) => Snapshot(s.cep, Some(d), "", false)
      case NotFound => Snapshot(s.cep, None, MsgNotFound, false)
      case Failure => Snapshot(s.cep, None, MsgFailure, false)
  {
  }

  /** Clearing twice is clearing once. */
  lemma ClearIdempotent(s: Snapshot)
    ensures Clear(Clear(s)) == Clear(s)
    ensures Clear(s).cep == "" && !ShowsError(Clear(s)) && !ShowsAddress(Clear(s))
  {
  }

  /** Re-entering what the field already shows changes nothing. */
  lemma EditIdempotent(s: Snapshot, raw: string)
    ensures Edit(Edit(s, raw), Edit(s, raw).cep) == Edit(s, raw)
  {
    SanitiseIdempotent(raw);
  }

  /** The user's actions, each run to completion. */
  datatype Event = ClearEvent | EditEvent(raw: string) | SearchEvent(outcome: Outcome)

  function Step(s: Snapshot, e: Event): Snapshot {
    match e
    case ClearEvent => Clear(s)
    case EditEvent(raw) => Edit(s, raw)
    case SearchEvent(o) => Search(s, o)
  }

  function Run(s: Snapshot, events: seq<Event>): Snapshot
    decreases |events|
  {
    if events == [] then s else Run(Step(s, events[0]), events[1..])
  }

  /** The state between two user actions: the field holds a sanitised value
      and nothing is loading. */
  predicate Idle(s: Snapshot) {
    IsSanitised(s.cep) && !s.carregando
  }

  lemma StepKeepsIdle(s: Snapshot, e: Event)
    requires Idle(s)
    ensures Idle(Step(s, e))
  {
  }

  /** Every state reached from the initial one by whole actions has a
      sanitised field and no loading indicator. */
  lemma {:induction false} RunKeepsIdle(s: Snapshot, events: seq<Event>)
    requires Idle(s)
    ensures Idle(Run(s, events))
    decreases |events|
  {
    if events != [] {
      StepKeepsIdle(s, events[0]);
      RunKeepsIdle(Step(s, events[0]), events[1..]);
    }
  }

  /** A state showing both an error and an address is reachable: find a
      code, shorten the field, search again. The failed validation leaves
      the earlier address on screen. */
  lemma {:induction false} ErrorAndAddressCoexist(code: string, short: string, a: Address, o: Outcome)
    requires IsSanitised(code) && |code| == CepLength
    requires IsSanitised(short) && |short| != CepLength
    ensures var s := Run(Initial(), [EditEvent(code), SearchEvent(Found(a)), EditEvent(short), SearchEvent(o)]);
      ShowsError(s) && ShowsAddress(s) && s == Snapshot(short, Some(a), MsgInvalidCep, false)
  {
    var events := [EditEvent(code), SearchEvent(Found(a)), EditEvent(short), SearchEvent(o)];
    SanitiseFixpoint(code);
    SanitiseFixpoint(short);
    var s1 := Edit(Initial(), code);
    var s2 := Search(s1, Found(a));
    assert s2 == Snapshot(code, Some(a), "", false);
    var s3 := Edit(s2, short);
    var s4 := Search(s3, o);
    assert s4 == Snapshot(short, Some(a), MsgInvalidCep, false);
    assert events[1..][1..] == events[2..] && events[2..][1..] == events[3..] && events[3..][1..] == [];
    calc {
      Run(Initial(), events);
      Run(s1, events[1..]);
      Run(s2, events[2..]);
      Run(s3, events[3..]);
      Run(s4, []);
    }
  }
}
