# BuscadorDeCEP in Dafny

A model of the `BuscadorDeCEP` React component: a Brazilian postal-code (CEP)
lookup form that queries the ViaCEP service and shows the address found.

- `cep_input.dfy` (module `CepInput`): the input sanitiser of
  `handleCepChange`, `value.replace(/\D/g, '').slice(0, 8)`, as the functions
  `Digits` and `Sanitise`, with an independent reference `DigitIndices` (the
  positions of the input that hold a digit) and lemmas: the result holds only
  `'0'`..`'9'`, at most eight of them, exactly the first min(8, #digits)
  digits of the input in their order; sanitising is idempotent and fixes
  exactly the values of at most eight digits.
- `lookup_state.dfy` (module `CepLookup`): the component's four state
  variables as a value `Snapshot(cep, endereco, erro, carregando)` and its
  transitions `Clear` (`limparBusca`), `Edit` (`handleCepChange`), `Start` and
  `Settle` (the two phases of `buscarCEP`, around the awaited request) and
  `Search` (both phases with nothing in between); the result of `fetch` and
  `response.json()` is the parameter `Outcome = Found(Address) | NotFound |
  Failure`. Lemmas state each transition's effect, that a whole sequence of
  user actions keeps the field sanitised and the loading flag off, and that a
  state showing both an error and an address is reachable.
- `buscador.dfy` (module `Buscador`): the component as a class
  `BuscadorDeCep` with the fields `cep`, `endereco`, `erro`, `carregando`
  and the methods `LimparBusca`, `HandleCepChange`, `IniciarBusca` (validate
  and start), `ConcluirBusca` (settle) and `BuscarCep` (both), each with its
  exact new state and tied to the matching `CepLookup` function.

The four state variables are independent, not one status with the cases
idle, loading, error and loaded, and the model keeps them so: a search rejected by
validation only sets `erro` and leaves an address found earlier in
`endereco`, so an error and an address can be shown at once
(`CepLookup.ErrorAndAddressCoexist`, `Buscador.ValidationKeepsAddress`).
The validation checks only the length of `cep`; that the requested code is
all digits follows from the field always being sanitised.

## Model

| member | source | states |
|---|---|---|
| CepInput.Digits | BuscadorCEP/src/components/BuscadorDeCEP.jsx:25-27 | removing non-digits leaves only `'0'`..`'9'` and never lengthens the text |
| CepInput.Sanitise | BuscadorCEP/src/components/BuscadorDeCEP.jsx:25-29 | the sanitised value is digits only, at most 8 long, of length min(8, #digits), and a prefix of the digit-filtered input |
| CepInput.DigitIndices | BuscadorCEP/src/components/BuscadorDeCEP.jsx:27 | reference for `\D` removal: strictly increasing positions of the input, each holding a digit, covering every digit position |
| CepInput.DigitsAppend | BuscadorCEP/src/components/BuscadorDeCEP.jsx:27 | the global replace acts on each part of a concatenation independently |
| CepInput.DigitsAtIndices | BuscadorCEP/src/components/BuscadorDeCEP.jsx:27 | the filtered text is exactly the input's characters at its digit positions, in the original order |
| CepInput.DigitsIdentity | BuscadorCEP/src/components/BuscadorDeCEP.jsx:27 | the filter leaves a text unchanged if and only if it is all digits |
| CepInput.SanitiseSelectsFirstDigits | BuscadorCEP/src/components/BuscadorDeCEP.jsx:25-29 | the field receives the first min(8, #digits) digits of the input, in the order typed |
| CepInput.SanitiseFixpoint | BuscadorCEP/src/components/BuscadorDeCEP.jsx:27-29 | sanitising leaves a value unchanged if and only if it is at most 8 digits |
| CepInput.SanitiseIdempotent | BuscadorCEP/src/components/BuscadorDeCEP.jsx:27-29 | sanitising twice gives the same value as once |
| CepInput.SanitiseExtends | BuscadorCEP/src/components/BuscadorDeCEP.jsx:25-29 | typing after a value the field holds never alters the digits already there |
| CepLookup.ViaCepUrl | BuscadorCEP/src/components/BuscadorDeCEP.jsx:50 | the request URL is the ViaCEP prefix, the code itself, then `/json/` |
| CepLookup.ViaCepUrlInjective | BuscadorCEP/src/components/BuscadorDeCEP.jsx:50 | distinct codes are requested at distinct URLs |
| CepLookup.StartRejects | BuscadorCEP/src/components/BuscadorDeCEP.jsx:37-40 | a code not of length 8 makes no request, sets the validation message, keeps field, address and loading flag |
| CepLookup.StartAccepts | BuscadorCEP/src/components/BuscadorDeCEP.jsx:37-45 | a code of length 8 shows loading, clears message and address, and requests that code's URL |
| CepLookup.SettleShowsOneRegion | BuscadorCEP/src/components/BuscadorDeCEP.jsx:57-69 | from a started search, settling stops loading, keeps the code, shows exactly one of error and address, the address only on Found and verbatim |
| CepLookup.SearchSettles | BuscadorCEP/src/components/BuscadorDeCEP.jsx:35-70 | a completed search of a length-8 code ends in the state fixed by the outcome: address and no message, or no address and the not-found or failure message |
| CepLookup.ClearIdempotent | BuscadorCEP/src/components/BuscadorDeCEP.jsx:16-20 | clearing empties field, message and address, and clearing twice equals clearing once |
| CepLookup.EditIdempotent | BuscadorCEP/src/components/BuscadorDeCEP.jsx:23-32 | editing the field to the text it already shows changes nothing |
| CepLookup.StepKeepsIdle | BuscadorCEP/src/components/BuscadorDeCEP.jsx:16-70 | each whole user action keeps the field sanitised and leaves loading off |
| CepLookup.RunKeepsIdle | BuscadorCEP/src/components/BuscadorDeCEP.jsx:16-70 | any sequence of whole user actions keeps the field sanitised and leaves loading off |
| CepLookup.ErrorAndAddressCoexist | BuscadorCEP/src/components/BuscadorDeCEP.jsx:37-40 | find a code, shorten the field, search again: the validation message and the earlier address are both shown |
| Buscador.BuscadorDeCep.constructor | BuscadorCEP/src/components/BuscadorDeCEP.jsx:7-13 | initial state: empty field, no address, no message, not loading |
| Buscador.BuscadorDeCep.LimparBusca | BuscadorCEP/src/components/BuscadorDeCEP.jsx:16-20 | empties field, address and message; loading flag unchanged |
| Buscador.BuscadorDeCep.HandleCepChange | BuscadorCEP/src/components/BuscadorDeCEP.jsx:23-32 | sets the field to the sanitised input and changes nothing else |
| Buscador.BuscadorDeCep.IniciarBusca | BuscadorCEP/src/components/BuscadorDeCEP.jsx:35-45 | request made iff the code has 8 characters; otherwise only the message changes; if made, loading on, message and address cleared, URL of the code |
| Buscador.BuscadorDeCep.ConcluirBusca | BuscadorCEP/src/components/BuscadorDeCEP.jsx:48-70 | loading off on every outcome, code kept; Found stores the data verbatim, NotFound and Failure set their messages |
| Buscador.BuscadorDeCep.BuscarCep | BuscadorCEP/src/components/BuscadorDeCEP.jsx:35-70 | the two phases in sequence: validation result or the final state fixed by the outcome |
| Buscador.ValidationKeepsAddress | BuscadorCEP/src/components/BuscadorDeCEP.jsx:23-70 | on the class: a found address survives a later search rejected by validation |

## Left out

- Rendering, CSS and the input's `maxLength` attribute (lines 74-124); only the
  three conditional regions are kept, as `ShowsLoading`, `ShowsError` and
  `ShowsAddress`.
- The network request and JSON parsing (lines 50-52): their result is the
  `Outcome` parameter; a truthy `erro` key in the body is `NotFound`, any
  thrown error is `Failure`. The `console.log` calls (lines 53-54) are not
  modelled.
- Address: only the five displayed fields are kept; the code stores the
  whole response object.
- Interleaving: an edit, a clear or another search while a request is in
  flight. `BuscarCep` and `Search` run both phases back to back; the class
  exposes `IniciarBusca` and `ConcluirBusca` separately, but no lemma is
  stated about events between them.
- React's batching of state updates: each `set` call is modelled as an
  immediate field assignment.
- JavaScript strings are UTF-16 code units; the model uses Dafny characters.
  The sanitised value holds only ASCII digits, so the truncation to eight
  agrees.
- `Estado.jsx` (a toggle of one boolean) and `HomePage.jsx` (static markup)
  are not part of this model.
