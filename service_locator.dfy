/** ServiceLocator.java: resolving `service/method` to a method descriptor. */
module ServiceLocation {
  import opened Common

  /** `MethodDescriptor.MethodType` */
  datatype MethodType = Unary | ClientStreaming | ServerStreaming | BidiStreaming | UnknownType

  /** The parts of a `MethodDescriptor` the gateway reads; its marshallers
      are opaque and given separately where they are used. */
  datatype MethodDescriptor = MethodDescriptor(fullMethodName: string, methodType: MethodType)

  /** The methods of a `ServiceDescriptor`, in declaration order. */
  datatype ServiceDescriptor = ServiceDescriptor(name: string, methods: seq<MethodDescriptor>)

  /** `s.indexOf(c)`: the first position of `c`, or -1. */
  function IndexOf(s: string, c: char): (i: int)
    ensures -1 <= i < |s|
    ensures i == -1 <==> c !in s
    ensures i >= 0 ==> s[i] == c && c !in s[..i]
  {
    if s == [] then -1
    else if s[0] == c then 0
    else
      var j := IndexOf(s[1..], c);
      if j == -1 then -1
      else
        assert s[..j + 1] == [s[0]] + s[1..][..j];
        j + 1
  }

  /** The first method named exactly `fullMethodName`
      (`filter(...).findFirst()`), by its position. */
  function FirstNamed(methods: seq<MethodDescriptor>, fullMethodName: string): (r: Option<nat>)
    ensures r.None? <==> forall k :: 0 <= k < |methods| ==> methods[k].fullMethodName != fullMethodName
    ensures r.Some? ==> r.value < |methods| && methods[r.value].fullMethodName == fullMethodName
    ensures r.Some? ==> forall k :: 0 <= k < r.value ==> methods[k].fullMethodName != fullMethodName
  {
    if methods == [] then None
    else if methods[0].fullMethodName == fullMethodName then Some(0)
    else
      match FirstNamed(methods[1..], fullMethodName)
      case None => None
      case Some(k) => Some(k + 1)
  }

  /** `locateMethod`: `locate` the service named by the text before the
      first `/`, then take its first method with exactly this full name.
      Without a `/`, `substring(0, -1)` throws StringIndexOutOfBoundsException;
      an unknown service fails as `locate` does; no matching method is a
      NoSuchElementException. */
  function LocateMethod(locate: string -> Result<ServiceDescriptor>, fullMethodName: string): (r: Result<MethodDescriptor>)
    ensures '/' !in fullMethodName ==> r == Err(IndexOutOfBounds)
    ensures '/' in fullMethodName ==>
              var service := locate(fullMethodName[..IndexOf(fullMethodName, '/')]);
              && (service.Err? ==> r == Err(service.error))
              && (service.Ok? ==> (r.Ok? <==> exists k :: 0 <= k < |service.value.methods| &&
                                                  service.value.methods[k].fullMethodName == fullMethodName))
              && (service.Ok? && r.Err? ==> r.error == NoSuchElement)
              && (r.Ok? ==> r.value in service.value.methods)
    ensures r.Ok? ==> r.value.fullMethodName == fullMethodName
  {
    var slash := IndexOf(fullMethodName, '/');
    if slash < 0 then Err(IndexOutOfBounds)
    else
      match locate(fullMethodName[..slash])
      case Err(e) => Err(e)
      case Ok(service) =>
        match FirstNamed(service.methods, fullMethodName)
        case None => Err(NoSuchElement)
        case Some(k) => Ok(service.methods[k])
  }

  // ------------------------------------------------------------ properties

  /** Only the service named by the prefix is consulted: two locators that
      agree on it locate the same method. */
  lemma OnlyPrefixServiceSearched(a: string -> Result<ServiceDescriptor>, b: string -> Result<ServiceDescriptor>,
                                  fullMethodName: string, serviceName: string, methodName: string)
    requires fullMethodName == serviceName + "/" + methodName && '/' !in serviceName
    requires a(serviceName) == b(serviceName)
    ensures LocateMethod(a, fullMethodName) == LocateMethod(b, fullMethodName)
    ensures LocateMethod(a, fullMethodName).Ok? ==>
              a(serviceName).Ok? && LocateMethod(a, fullMethodName).value in a(serviceName).value.methods
  {
    ServiceNameIsPrefix(fullMethodName, serviceName, methodName);
  }

  /** The service name is exactly the text before the first `/`, even when
      the method part holds further slashes. */
  lemma ServiceNameIsPrefix(fullMethodName: string, serviceName: string, methodName: string)
    requires fullMethodName == serviceName + "/" + methodName && '/' !in serviceName
    ensures '/' in fullMethodName
    ensures fullMethodName[..IndexOf(fullMethodName, '/')] == serviceName
  {
    assert fullMethodName[|serviceName|] == '/';
    assert fullMethodName[..|serviceName|] == serviceName;
    assert forall k :: 0 <= k < |serviceName| ==> fullMethodName[k] == serviceName[k] != '/';
    var i := IndexOf(fullMethodName, '/');
    assert i <= |serviceName| by {
      assert forall k :: 0 <= k < i ==> fullMethodName[..i][k] != '/';
    }
  }
}
