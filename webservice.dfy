/** The webservice boundary of the plugin (auth.php, `call_ws`). The SOAP
    library itself is not modelled: it is the parameter `soap`, a function
    from the request it is handed to the reply it produces or the fault it
    throws. */
module Webservice {
  import opened DefaultParams

  /** One `wsAluno` element of a `GetAlunos` reply, with the three fields the
      sync reads. */
  datatype RemoteStudent = RemoteStudent(loginPortal: string, nome: string, email: string)

  /** The remote operation and the parameter array handed to `__soapCall`. */
  datatype Request = Request(functionName: string, params: map<string, string>)

  /** What the SOAP library does with a request: it returns the reply's
      `GetAlunosResult->wsAluno` list, the call throws a fault, or already
      `new SoapClient` throws (the WSDL cannot be loaded). */
  datatype SoapReply = Reply(alunos: seq<RemoteStudent>) | Fault(message: string) | ClientFault(message: string)

  /** What `call_ws` gives back: the response object, `false` when the call
      threw inside the `try`, or an exception it lets escape because
      `new SoapClient` stands before the `try`. */
  datatype WsResult = Response(alunos: seq<RemoteStudent>) | False | Uncaught(message: string)

  /** `call_ws`: merge the configured defaults with the call's parameters,
      send them, turn a fault of the call into `false`, and let a fault of
      the client's construction escape. */
  function CallWs(defaults: map<string, string>, functionName: string, params: map<string, string>,
                  soap: Request -> SoapReply): (r: WsResult)
    requires StringKeysOnly(defaults) && StringKeysOnly(params)
    ensures r.False? <==> soap(Request(functionName, MergeParams(defaults, params))).Fault?
    ensures r.Uncaught? <==> soap(Request(functionName, MergeParams(defaults, params))).ClientFault?
    ensures r.Uncaught? ==> r.message == soap(Request(functionName, MergeParams(defaults, params))).message
    ensures r.Response? ==> r.alunos == soap(Request(functionName, MergeParams(defaults, params))).alunos
  {
    match soap(Request(functionName, MergeParams(defaults, params)))
    case Reply(alunos) => Response(alunos)
    case Fault(_) => False
    case ClientFault(message) => Uncaught(message)
  }

  /** The records `sync_users` iterates over when `call_ws` returned: the
      response's `wsAluno` list, or nothing at all for `false` (a property of
      `false` reads as null and a foreach over null runs no iteration). */
  function StudentsOf(result: WsResult): (students: seq<RemoteStudent>)
    requires !result.Uncaught?
    ensures result.False? ==> students == []
    ensures result.Response? ==> students == result.alunos
  {
    match result
    case Response(alunos) => alunos
    case False => []
  }

  const GetAlunos := "GetAlunos"
  const SearchParamName := "sParametrosBusca"
  const SearchFilter := "Inadimplente=0"

  /** The fixed search parameters `sync_users` passes to `GetAlunos`. */
  function SearchParams(): (p: map<string, string>)
    ensures StringKeysOnly(p)
  {
    assert !IsDigit(SearchParamName[0]) && SearchParamName[0] != '-';
    map[SearchParamName := SearchFilter]
  }

  /** What the `GetAlunos` call of one sync run gives back. */
  function Fetch(defaults: map<string, string>, soap: Request -> SoapReply): WsResult
    requires StringKeysOnly(defaults)
  {
    CallWs(defaults, GetAlunos, SearchParams(), soap)
  }

  /** The request `sync_users` sends carries the search filter whatever the
      defaults say, and every default it does not override. */
  lemma SyncRequestParams(defaults: map<string, string>)
    requires StringKeysOnly(defaults)
    ensures var sent := MergeParams(defaults, SearchParams());
            && sent[SearchParamName] == SearchFilter
            && sent.Keys == defaults.Keys + {SearchParamName}
            && forall k :: k in defaults && k != SearchParamName ==> sent[k] == defaults[k]
  {
  }

  /** A fault on the `GetAlunos` call leaves the sync with no records. */
  lemma FaultYieldsNoStudents(defaults: map<string, string>, soap: Request -> SoapReply)
    requires StringKeysOnly(defaults)
    requires soap(Request(GetAlunos, MergeParams(defaults, SearchParams()))).Fault?
    ensures Fetch(defaults, soap) == False && StudentsOf(Fetch(defaults, soap)) == []
  {
  }

  /** A fault while loading the WSDL is not caught by `call_ws`: it reaches
      `sync_users` as an exception. */
  lemma ClientFaultEscapes(defaults: map<string, string>, soap: Request -> SoapReply)
    requires StringKeysOnly(defaults)
    requires soap(Request(GetAlunos, MergeParams(defaults, SearchParams()))).ClientFault?
    ensures Fetch(defaults, soap).Uncaught?
  {
  }
}
