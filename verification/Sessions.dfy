/** `Session`: the identity a connection holds, and the buffer its lines are read from. */
module Sessions {
  import opened Strings
  import Wire

  /** `size_t(-1)`. */
  const NO_ID: nat := 0xFFFF_FFFF_FFFF_FFFF

  /** What `logout` clears and `autorize` sets. */
  datatype Identity = Identity(authorised: bool, id: nat, login: Bytes, role: Bytes, token: Bytes)

  /** A session that nobody has logged in to, or that was logged out. */
  const NOBODY: Identity := Identity(false, NO_ID, [], [], [])

  function Authorise(v: Identity, id: nat, login: Bytes, role: Bytes): Identity {
    v.(authorised := true, id := id, login := login, role := role)
  }

  class Session {
    var responce: Bytes
    var isAutorized: bool
    var id: nat
    var currentLogin: Bytes
    var currentRole: Bytes
    var currentToken: Bytes

    constructor ()
      ensures responce == [] && View() == NOBODY
    {
      responce := [];
      isAutorized, id, currentLogin, currentRole, currentToken := false, NO_ID, [], [], [];
    }

    function View(): Identity
      reads this
    {
      Identity(isAutorized, id, currentLogin, currentRole, currentToken)
    }

    /** The flag passed in is not used: the session always ends up authorised. */
    method Autorize(flag: bool, userId: nat, login: Bytes, role: Bytes)
      modifies this
      ensures View() == Authorise(old(View()), userId, login, role) && responce == old(responce)
    {
      isAutorized := true;
      id := userId;
      currentLogin := login;
      currentRole := role;
    }

    method Logout()
      modifies this
      ensures View() == NOBODY && responce == old(responce)
    {
      isAutorized := false;
      id := NO_ID;
      currentLogin := [];
      currentRole := [];
      currentToken := [];
    }

    predicate CheckToken(token: Bytes)
      reads this
    {
      token == currentToken
    }

    /** One completion of `async_read_until`: the buffer is known to hold a newline. */
    method TakeLine() returns (message: Bytes)
      requires '\n' in responce
      modifies this`responce
      ensures var k := Find(old(responce), '\n', 0);
              && k.Some?
              && message == Chomp(old(responce)[..k.value + 1]) && responce == Wire.Erase(old(responce), k.value + 1)
    {
      var length := Find(responce, '\n', 0).value + 1;
      message := responce[..length];
      if message != [] && message[|message| - 1] == '\n' {
        message := message[..|message| - 1];
      }
      if message != [] && message[|message| - 1] == '\r' {
        message := message[..|message| - 1];
      }
      responce := if length + 1 <= |responce| then responce[length + 1..] else [];
    }

    /** The rounds of `do_read` that one arrival of bytes completes. */
    method Arrive(chunk: Bytes) returns (messages: seq<Bytes>)
      modifies this`responce
      ensures messages == Wire.Dispatched(Wire.Drain(old(responce) + chunk).lines)
      ensures responce == Wire.Drain(old(responce) + chunk).rest
    {
      hide Find, Chomp, Wire.Drain, Wire.Dispatched;
      responce := responce + chunk;
      messages := [];
      ghost var all := responce;
      while '\n' in responce
        invariant Wire.Dispatched(Wire.Drain(all).lines) == messages + Wire.Dispatched(Wire.Drain(responce).lines)
        invariant Wire.Drain(all).rest == Wire.Drain(responce).rest
        decreases |responce|
      {
        ghost var before := responce;
        var message := TakeLine();
        Wire.DrainStep(before);
        Wire.AssocFields(messages, [message], Wire.Dispatched(Wire.Drain(responce).lines));
        messages := messages + [message];
      }
      Wire.DrainNothing(responce);
    }
  }
}
