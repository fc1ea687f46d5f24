/** The messages client and server exchange: a status, a key and a value. */
module Messages {
  import opened Java
  import opened JavaText

  /** The status of a message, one constant of the `KVMessage.StatusType`
      enumeration. */
  datatype StatusType =
    | Get
    | GetError
    | GetSuccess
    | Put
    | PutSuccess
    | PutUpdate
    | PutError
    | DeleteSuccess
    | DeleteError
  {
    /** `name()`: the constant's identifier as declared. */
    function Name(): string
    {
      match this
      case Get => "GET"
      case GetError => "GET_ERROR"
      case GetSuccess => "GET_SUCCESS"
      case Put => "PUT"
      case PutSuccess => "PUT_SUCCESS"
      case PutUpdate => "PUT_UPDATE"
      case PutError => "PUT_ERROR"
      case DeleteSuccess => "DELETE_SUCCESS"
      case DeleteError => "DELETE_ERROR"
    }
  }

  /** `StatusType.valueOf(name)`: the constant with exactly that name, or
      None where Java throws `IllegalArgumentException`. */
  function ValueOf(name: string): (r: Option<StatusType>)
    ensures r.Some? ==> r.value.Name() == name
  {
    if name == "GET" then Some(Get)
    else if name == "GET_ERROR" then Some(GetError)
    else if name == "GET_SUCCESS" then Some(GetSuccess)
    else if name == "PUT" then Some(Put)
    else if name == "PUT_SUCCESS" then Some(PutSuccess)
    else if name == "PUT_UPDATE" then Some(PutUpdate)
    else if name == "PUT_ERROR" then Some(PutError)
    else if name == "DELETE_SUCCESS" then Some(DeleteSuccess)
    else if name == "DELETE_ERROR" then Some(DeleteError)
    else None
  }

  /** `valueOf` inverts `name()`. */
  lemma ValueOfName(status: StatusType)
    ensures ValueOf(status.Name()) == Some(status)
  {
  }

  /** `valueOf` rejects exactly the strings that are no constant's name. */
  lemma ValueOfRejects(name: string)
    ensures ValueOf(name).None? <==> forall s: StatusType :: s.Name() != name
  {
    forall s: StatusType ensures ValueOf(s.Name()) == Some(s) {
      ValueOfName(s);
    }
  }

  /** No status name contains a space or a line break. */
  lemma NameHasNoSeparator(status: StatusType)
    ensures Free(status.Name(), {' '} + LineBreaks)
    ensures status.Name() != []
  {
    match status
    case Get =>
    case GetError =>
    case GetSuccess =>
    case Put =>
    case PutSuccess =>
    case PutUpdate =>
    case PutError =>
    case DeleteSuccess =>
    case DeleteError =>
  }

  /** A `SimpleKVMessage`: the three values its constructor stores. Java
      gives it no setters, so they never change. */
  datatype KVMessage = KVMessage(status: StatusType, key: JString, value: JString)
  {
    function GetStatus(): StatusType { status }
    function GetKey(): JString { key }
    function GetValue(): JString { value }
  }

  /** Each getter hands back what the constructor was given, null included. */
  lemma GettersReturnConstructorArguments(status: StatusType, key: JString, value: JString)
    ensures KVMessage(status, key, value).GetStatus() == status
    ensures KVMessage(status, key, value).GetKey() == key
    ensures KVMessage(status, key, value).GetValue() == value
  {
  }
}
