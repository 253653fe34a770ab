/** The SAX handler of from_json (json/awkjsonhandler.cpp) and its use (json/json.cpp). */
module JsonHandler {
  import opened Common
  import opened JsonEvents

  class AwkJsonHandler {
    var outArray: map<string, Tree>
    var currentKey: string
    var currentValue: Tree
    var currentIndex: nat
    var processingArray: bool
    var level: nat
    var memberStack: seq<Saved>

    ghost function Members(): Saved
      reads this
    {
      Saved(outArray, currentKey, currentValue, currentIndex, processingArray)
    }

    ghost function Now(): State
      reads this
    {
      State(Members(), level, memberStack)
    }

    /** The current value starts out uninitialised. */
    constructor (outArray: map<string, Tree>, garbage: Tree)
      ensures Now() == State(Saved(outArray, [], garbage, 0, false), 0, [])
    {
      this.outArray, currentIndex, processingArray, level := outArray, 0, false, 0;
      currentKey, currentValue, memberStack := [], garbage, [];
    }

    /** setElement: install the current value into the array being built. */
    method SetElement() returns (ok: bool)
      modifies this`outArray, this`currentIndex
      ensures ok && Members() == JsonEvents.SetElement(old(Members()))
    {
      var index: string;
      if processingArray {
        index := Decimal(currentIndex);
        currentIndex := currentIndex + 1;
      } else {
        index := currentKey;
      }
      outArray := outArray[index := currentValue];
      ok := true;
    }

    method PushMembers()
      modifies this`memberStack
      ensures memberStack == old(memberStack) + [Members()]
    {
      memberStack := memberStack + [Saved(outArray, currentKey, currentValue, currentIndex, processingArray)];
    }

    method PopMembers()
      requires memberStack != []
      modifies this`memberStack, this`outArray, this`currentKey, this`currentValue, this`currentIndex, this`processingArray
      ensures memberStack + [Members()] == old(memberStack)
    {
      var current := memberStack[|memberStack| - 1];
      memberStack := memberStack[..|memberStack| - 1];
      outArray, currentKey, currentValue := current.out, current.key, current.value;
      currentIndex, processingArray := current.index, current.listing;
    }

    method InitMembers()
      modifies this`outArray, this`currentKey, this`currentValue, this`currentIndex, this`processingArray
      ensures Members() == Fresh()
    {
      outArray, currentKey, currentValue := map[], [], Leaf(Undefined);
      currentIndex, processingArray := 0, false;
    }

    method SetValue(t: Tree) returns (ok: bool)
      modifies this`outArray, this`currentIndex, this`currentValue
      ensures ok && Members() == Install(old(Members()), t)
    {
      currentValue := t;
      ok := SetElement();
    }

    method Null() returns (ok: bool)
      modifies this
      ensures ok && Now() == Step(old(Now()), Event.Null)
    {
      ok := SetValue(Leaf(Undefined));
    }

    method Bool(b: bool) returns (ok: bool)
      modifies this
      ensures ok && Now() == Step(old(Now()), Event.Bool(b))
    {
      ok := SetValue(Leaf(Boolean(b)));
    }

    /** A string in the shape of a regex becomes one. For "@/" its length less 3 wraps around, and what is
        copied then is not defined. */
    method String(s: string) returns (defined: bool)
      modifies this
      ensures defined == !Underflows(s)
      ensures defined ==> Now() == Step(old(Now()), Event.String(s))
    {
      if |s| >= 2 && s[0] == '@' && s[1] == '/' && s[|s| - 1] == '/' {
        if |s| < 3 {
          return false;
        }
        var newLen := |s| - 3;
        defined := SetValue(Leaf(Regex(s[2..2 + newLen])));
      } else {
        defined := SetValue(Leaf(StrNum(s)));
      }
    }

    method Key(k: string) returns (ok: bool)
      modifies this
      ensures ok && Now() == Step(old(Now()), Event.Key(k))
    {
      currentKey := k;
      ok := true;
    }

    method StartObject() returns (ok: bool)
      modifies this
      ensures ok && Now() == Start(old(Now()))
    {
      level := level + 1;
      if level == 1 {
        return true;
      }
      PushMembers();
      InitMembers();
      ok := true;
    }

    method EndObject() returns (ok: bool)
      requires level > 0 && |memberStack| == level - 1
      modifies this
      ensures ok && Now() == End(old(Now()))
    {
      level := level - 1;
      if level == 0 {
        return true;
      }
      var built := Branch(outArray);
      PopMembers();
      ok := SetValue(built);
    }

    method StartArray() returns (ok: bool)
      modifies this
      ensures ok && Now() == Step(old(Now()), Event.StartArray)
    {
      ok := StartObject();
      processingArray, currentIndex := true, 1;
    }

    method EndArray() returns (ok: bool)
      requires level > 0 && |memberStack| == level - 1
      modifies this
      ensures ok && Now() == Step(old(Now()), Event.EndArray)
    {
      ok := EndObject();
      if level == 0 {
        processingArray, currentIndex := false, 1;
      }
    }

    /** What the reader does with an event; a number is handed over as a string. The reader ends only what
        it has started. */
    method Accept(e: Event) returns (defined: bool)
      modifies this
      ensures defined == old(Allowed(Now(), e))
      ensures defined ==> Now() == Step(old(Now()), e)
    {
      match e {
        case Null => defined := Null();
        case Wild => defined := false;
        case Bool(b) => defined := Bool(b);
        case NumberText(s) => defined := String(s);
        case String(s) => defined := String(s);
        case Key(s) => defined := Key(s);
        case StartObject => defined := StartObject();
        case StartArray => defined := StartArray();
        case EndObject =>
          defined := level > 0 && |memberStack| == level - 1;
          if defined {
            defined := EndObject();
          }
        case EndArray =>
          defined := level > 0 && |memberStack| == level - 1;
          if defined {
            defined := EndArray();
          }
      }
    }
  }

  /** from_json: the array is cleared and rebuilt from the events of the text; None stands for the undefined. */
  method FromJson(es: seq<Event>, garbage: Tree) returns (rebuilt: Option<map<string, Tree>>)
    ensures rebuilt == match Run(State(Saved(map[], [], garbage, 0, false), 0, []), es)
      case None => None
      case Some(s) => Some(s.cur.out)
  {
    var handler := new AwkJsonHandler(map[], garbage);
    ghost var all := Run(handler.Now(), es);
    hide Step;
    var i := 0;
    while i < |es|
      invariant i <= |es| && Run(handler.Now(), es[i..]) == all
    {
      assert es[i..][0] == es[i] && es[i..][1..] == es[i + 1..];
      var defined := handler.Accept(es[i]);
      if !defined {
        return None;
      }
      i := i + 1;
    }
    rebuilt := Some(handler.outArray);
  }
}
