/** The registry and fan-out of GameServerImpl, sequentially, and the rule its
    constructor uses to turn configuration properties into setter calls.
    A connection is modelled by the log of messages sent on it. */
module GameServer {
  import opened Wrappers
  import JavaText

  /** In a list of the ids 0, 1, ..., the next id does not occur yet. */
  lemma NextIdFresh(joined: seq<string>)
    requires forall k :: 0 <= k < |joined| ==> joined[k] == JavaText.NatToDecimal(k)
    ensures JavaText.NatToDecimal(|joined|) !in joined
  {
    forall k | 0 <= k < |joined| ensures joined[k] != JavaText.NatToDecimal(|joined|) {
      JavaText.NatToDecimalInjective(k, |joined|);
    }
  }

  class Server {
    /** `clients`, with each connection replaced by the messages sent on it. */
    var clients: map<string, seq<string>>
    /** The ids handed out, in the order clients were accepted. */
    ghost var joined: seq<string>

    /** The k-th accepted client has id "k"; those are exactly the registered
        ids; the first line on every connection is the client's own id. */
    ghost predicate Valid()
      reads this
    {
      && |joined| == |clients|
      && (forall k :: 0 <= k < |joined| ==> joined[k] == JavaText.NatToDecimal(k))
      && (forall id :: id in clients <==> id in joined)
      && (forall id :: id in clients ==> |clients[id]| > 0 && clients[id][0] == id)
    }

    constructor ()
      ensures Valid() && clients == map[] && joined == []
    {
      clients := map[];
      joined := [];
    }

    /** `accept`: the new client's id is the decimal number of clients already
        registered; it is fresh, it is registered, and it is the first message
        sent on the new connection. */
    method Accept() returns (id: string)
      requires Valid()
      modifies this
      ensures Valid()
      ensures id == JavaText.NatToDecimal(|old(clients)|)
      ensures id !in old(clients)
      ensures clients == old(clients)[id := [id]]
      ensures joined == old(joined) + [id]
    {
      var n := |clients|;
      id := JavaText.NatToDecimal(n);
      NextIdFresh(joined);
      clients := clients[id := [id]];
      assert |clients| == n + 1;
      joined := joined + [id];
      forall k | 0 <= k < |joined| ensures joined[k] == JavaText.NatToDecimal(k) {
        if k < n {
          assert joined[k] == old(joined)[k];
        }
      }
    }

    /** `broadcast`: the message is appended to every connection, and the set
        of clients is unchanged. */
    method Broadcast(message: string)
      requires Valid()
      modifies this
      ensures Valid()
      ensures clients.Keys == old(clients).Keys && joined == old(joined)
      ensures forall id :: id in clients ==> clients[id] == old(clients)[id] + [message]
    {
      var pending := clients.Keys;
      while pending != {}
        invariant pending <= clients.Keys == old(clients).Keys && joined == old(joined)
        invariant Valid()
        invariant forall id :: id in pending ==> clients[id] == old(clients)[id]
        invariant forall id :: id in clients && id !in pending ==> clients[id] == old(clients)[id] + [message]
        decreases |pending|
      {
        var id :| id in pending;
        clients := clients[id := clients[id] + [message]];
        pending := pending - {id};
      }
    }

    /** `sendTo`: the message is appended to that client's connection only.
        For an id never handed out `clients.get` is null and the send throws a
        NullPointerException, modelled by `sent` being false. */
    method SendTo(id: string, message: string) returns (sent: bool)
      requires Valid()
      modifies this
      ensures Valid() && joined == old(joined)
      ensures sent <==> id in old(clients)
      ensures sent ==> clients == old(clients)[id := old(clients)[id] + [message]]
      ensures !sent ==> clients == old(clients)
    {
      if id !in clients {
        return false;
      }
      clients := clients[id := clients[id] + [message]];
      sent := true;
    }
  }

  /** The parameter type a setter is looked up with. */
  datatype ParamType = IntType | StringType

  /** The argument a setter is invoked with. */
  datatype SetterArg = IntArg(n: int) | StringArg(s: string)

  datatype Invocation = Invocation(setter: string, arg: SetterArg)

  /** How configuring the game can fail: the RuntimeException wrapping a
      missing class, constructor or setter; the StringIndexOutOfBoundsException
      of an empty property name; the NumberFormatException of a digit string
      Integer.decode rejects. */
  datatype SetupError =
    | CannotSetup(gameClassName: string)
    | EmptyPropertyName
    | NumberFormat(value: string)

  /** "set" followed by the property name with its first letter upper-cased. */
  function SetterName(propName: string): (r: Option<string>)
    ensures r.Some? <==> |propName| > 0
    ensures r.Some? ==> |r.value| == |propName| + 3 && r.value[..3] == "set"
  {
    if |propName| == 0 then None
    else Some("set" + [JavaText.UpperCase(propName[0])] + propName[1..])
  }

  /** Two property names give the same setter iff they differ at most in the
      case of their first letter. */
  lemma SetterNameCollisions(p: string, q: string)
    requires |p| > 0 && |q| > 0
    ensures SetterName(p) == SetterName(q) <==>
              JavaText.UpperCase(p[0]) == JavaText.UpperCase(q[0]) && p[1..] == q[1..]
  {
    var sp, sq := SetterName(p).value, SetterName(q).value;
    if sp == sq {
      assert sp[3] == JavaText.UpperCase(p[0]) && sq[3] == JavaText.UpperCase(q[0]);
      assert sp[4..] == p[1..] && sq[4..] == q[1..];
    }
  }

  /** The setter call for one property: a value matching `\d+` goes through
      Integer.decode to the `int` setter, any other value to the String setter.
      The setter is looked up before the value is decoded, as Java evaluates
      the receiver `getMethod(...)` before the argument `Integer.decode(value)`. */
  function SetterCall(gameClassName: string, setters: set<(string, ParamType)>, propName: string, value: string): (r: Result<Invocation, SetupError>)
    ensures |propName| == 0 <==> r == Failure(EmptyPropertyName)
    ensures r.Success? ==> Some(r.value.setter) == SetterName(propName)
    ensures r.Success? ==> (r.value.arg.IntArg? <==> JavaText.IsDigits(value))
    ensures r.Success? && r.value.arg.IntArg? ==>
              (r.value.setter, IntType) in setters && JavaText.IsSignedDigits(value) && JavaText.Decode(value) == Some(r.value.arg.n)
    ensures r.Success? && r.value.arg.StringArg? ==> (r.value.setter, StringType) in setters && r.value.arg.s == value
    ensures r.Failure? && |propName| > 0 ==>
              r.error == CannotSetup(gameClassName) || (JavaText.IsDigits(value) && r.error == NumberFormat(value))
  {
    match SetterName(propName)
    case None => Failure(EmptyPropertyName)
    case Some(name) =>
      if JavaText.IsDigits(value) then
        if (name, IntType) !in setters then Failure(CannotSetup(gameClassName))
        else match JavaText.Decode(value)
          case None => Failure(NumberFormat(value))
          case Some(n) => Success(Invocation(name, IntArg(n)))
      else
        if (name, StringType) !in setters then Failure(CannotSetup(gameClassName))
        else Success(Invocation(name, StringArg(value)))
  }

  /** A digit string is read as octal when it starts with 0: the property
      `x=010` calls `setX(8)`, and `x=09` is a NumberFormatException. */
  lemma SetterCallExamples(setters: set<(string, ParamType)>)
    requires ("setX", IntType) in setters
    ensures SetterCall("Game", setters, "x", "010") == Success(Invocation("setX", IntArg(8)))
    ensures SetterCall("Game", setters, "x", "09") == Failure(NumberFormat("09"))
  {
    JavaText.DecodeOctalExamples();
    assert JavaText.UpperCase('x') == 'X';
    assert "set" + ['X'] + "x"[1..] == "setX";
    assert JavaText.IsDigits("010") && JavaText.IsDigits("09");
  }

  /** The constructor's configuration: the game class must load (with a
      constructor taking the server), then every property becomes a setter
      call, in the order given, stopping at the first failure. */
  method Setup(gameClassName: string, loadable: set<string>, setters: set<(string, ParamType)>, properties: seq<(string, string)>)
    returns (r: Result<seq<Invocation>, SetupError>)
    ensures gameClassName !in loadable ==> r == Failure(CannotSetup(gameClassName))
    ensures r.Success? ==>
              |r.value| == |properties| &&
              forall k :: 0 <= k < |properties| ==>
                SetterCall(gameClassName, setters, properties[k].0, properties[k].1) == Success(r.value[k])
    ensures r.Failure? && gameClassName in loadable ==>
              exists k :: 0 <= k < |properties| &&
                (forall j :: 0 <= j < k ==> SetterCall(gameClassName, setters, properties[j].0, properties[j].1).Success?) &&
                SetterCall(gameClassName, setters, properties[k].0, properties[k].1) == Failure(r.error)
    ensures gameClassName in loadable &&
            (forall k :: 0 <= k < |properties| ==> SetterCall(gameClassName, setters, properties[k].0, properties[k].1).Success?) ==>
              r.Success?
  {
    if gameClassName !in loadable {
      return Failure(CannotSetup(gameClassName));
    }
    var calls: seq<Invocation> := [];
    for i := 0 to |properties|
      invariant |calls| == i
      invariant forall k :: 0 <= k < i ==>
                  SetterCall(gameClassName, setters, properties[k].0, properties[k].1) == Success(calls[k])
    {
      var call := SetterCall(gameClassName, setters, properties[i].0, properties[i].1);
      if call.Failure? {
        return Failure(call.error);
      }
      calls := calls + [call.value];
    }
    r := Success(calls);
  }
}
