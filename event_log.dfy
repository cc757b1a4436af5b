/**
 * decodeLog: the signature-topic check, the split of an event's inputs into
 * indexed ones (decoded from the topics after the first) and non-indexed
 * ones (decoded together from the log's data), and the dictionary that
 * maps "name" to the event's name, then each input's position and, when it
 * has one, its name to its value.
 */
module EventLogDecoding {
  import opened Wrappers
  import opened Primitives
  import opened AbiTypes
  import opened DecodingSpec
  import Decoder

  /** ABIv2.Element.Event.Input */
  datatype EventInput = EventInput(name: string, paramType: ParamType, indexed: bool)

  /** ABIv2.Element.Event; `topic` is the signature hash, taken as given. */
  datatype Event = Event(name: string, inputs: seq<EventInput>, anonymous: bool, topic: seq<byte>)

  /** EventLog: the topics of a log entry and its data. */
  datatype EventLog = EventLog(topics: seq<seq<byte>>, data: seq<byte>)

  /** A value of the dictionary decodeLog returns: the event's name, or a decoded parameter. */
  datatype Entry = EventName(name: string) | Param(value: Value)

  predicate InputsWellFormed(inputs: seq<EventInput>) {
    forall i | 0 <= i < |inputs| :: WellFormed(inputs[i].paramType)
  }

  /** inputs.filter { $0.indexed } */
  function Indexed(s: seq<EventInput>): (r: seq<EventInput>)
    ensures |r| <= |s|
    ensures InputsWellFormed(s) ==> InputsWellFormed(r)
  {
    if |s| == 0 then []
    else Indexed(s[..|s| - 1]) + (if s[|s| - 1].indexed then [s[|s| - 1]] else [])
  }

  /** inputs.filter { !$0.indexed } */
  function NonIndexed(s: seq<EventInput>): (r: seq<EventInput>)
    ensures |r| <= |s|
    ensures InputsWellFormed(s) ==> InputsWellFormed(r)
  {
    if |s| == 0 then []
    else NonIndexed(s[..|s| - 1]) + (if s[|s| - 1].indexed then [] else [s[|s| - 1]])
  }

  /** The filters over one more input: it goes to exactly one of them. */
  lemma FilterStep(s: seq<EventInput>, j: nat)
    requires j < |s|
    ensures Indexed(s[..j + 1]) == Indexed(s[..j]) + (if s[j].indexed then [s[j]] else [])
    ensures NonIndexed(s[..j + 1]) == NonIndexed(s[..j]) + (if s[j].indexed then [] else [s[j]])
  {
    assert s[..j + 1][..j] == s[..j];
  }

  /** The filters of a prefix are prefixes of the filters. */
  lemma {:induction false} FilterPrefix(s: seq<EventInput>, j: nat)
    requires j <= |s|
    ensures Indexed(s[..j]) <= Indexed(s) && NonIndexed(s[..j]) <= NonIndexed(s)
    decreases |s| - j
  {
    if j < |s| {
      FilterPrefix(s, j + 1);
      FilterStep(s, j);
    } else {
      assert s[..j] == s;
    }
  }

  /** Input j is at position "how many before it went the same way" of its filter. */
  lemma FilterPosition(s: seq<EventInput>, j: nat)
    requires j < |s|
    ensures s[j].indexed ==> |Indexed(s[..j])| < |Indexed(s)| && Indexed(s)[|Indexed(s[..j])|] == s[j]
    ensures !s[j].indexed ==> |NonIndexed(s[..j])| < |NonIndexed(s)| && NonIndexed(s)[|NonIndexed(s[..j])|] == s[j]
  {
    FilterStep(s, j);
    FilterPrefix(s, j + 1);
  }

  /** Every input goes to exactly one of the two filters. */
  lemma {:induction false} FilterSizes(s: seq<EventInput>)
    ensures |Indexed(s)| + |NonIndexed(s)| == |s|
  {
    if |s| > 0 {
      FilterSizes(s[..|s| - 1]);
    }
  }

  /** nonIndexedInputs.compactMap { $0.type } */
  function Types(s: seq<EventInput>): (r: seq<ParamType>)
    ensures |r| == |s| && forall i | 0 <= i < |s| :: r[i] == s[i].paramType
  {
    seq(|s|, i requires 0 <= i < |s| => s[i].paramType)
  }

  /**
   * The type an indexed input is read as from its topic: a dynamic type, an
   * array or a type whose head is not one word is stored in the topic as a
   * 32-byte hash, read as bytes(32).
   */
  function TopicType(t: ParamType): (r: ParamType)
    ensures WellFormed(t) ==> WellFormed(r)
    ensures r == t || r == Bytes(32)
  {
    if !IsStatic(t) || IsArray(t) || MemoryUsage(t) != 32 then Bytes(32) else t
  }

  /** Values decoded so far, put in front of what the rest yields. */
  function Glue(prefix: seq<Value>, rest: Option<seq<Value>>): Option<seq<Value>> {
    match rest
    case None => None
    case Some(vs) => Some(prefix + vs)
  }

  /** The indexed inputs, each decoded at pointer 0 of its topic; nil as soon as one fails. */
  function IndexedValues(mode: Mode, indexed: seq<EventInput>, topics: seq<seq<byte>>): (r: Option<seq<Value>>)
    requires |topics| == |indexed| && InputsWellFormed(indexed)
    ensures r.Some? ==> |r.value| == |indexed|
  {
    if |indexed| == 0 then Some([])
    else
      match DecodeSingle(mode, TopicType(indexed[0].paramType), topics[0], 0)
      case None => None
      case Some((v, _)) => Glue([v], IndexedValues(mode, indexed[1..], topics[1..]))
  }

  /** The value decodeLog stores for input j: the next indexed or the next non-indexed value. */
  function ValueAt(inputs: seq<EventInput>, j: nat, iv: seq<Value>, nv: seq<Value>): Value
    requires j < |inputs| && |iv| == |Indexed(inputs)| && |nv| == |NonIndexed(inputs)|
  {
    FilterPosition(inputs, j);
    if inputs[j].indexed then iv[|Indexed(inputs[..j])|] else nv[|NonIndexed(inputs[..j])|]
  }

  /** Whether step j of the dictionary loop writes `key`: its position, or its non-empty name. */
  predicate Writes(inputs: seq<EventInput>, j: nat, key: string)
    requires j < |inputs|
  {
    key == Decimal(j) || (inputs[j].name != "" && inputs[j].name == key)
  }

  /** The value decodeLog stores for each input, in the order of the inputs. */
  function InputValues(inputs: seq<EventInput>, iv: seq<Value>, nv: seq<Value>): (r: seq<Value>)
    requires |iv| == |Indexed(inputs)| && |nv| == |NonIndexed(inputs)|
    ensures |r| == |inputs|
  {
    seq(|inputs|, j requires 0 <= j < |inputs| => ValueAt(inputs, j, iv, nv))
  }

  /**
   * The dictionary after the first k steps of the loop, "name" written
   * before them; step j maps input j's position and non-empty name to vals[j].
   */
  function Filled(event: Event, vals: seq<Value>, k: nat): map<string, Entry>
    requires k <= |event.inputs| == |vals|
  {
    if k == 0 then map["name" := EventName(event.name)]
    else
      var value := Param(vals[k - 1]);
      var m := Filled(event, vals, k - 1)[Decimal(k - 1) := value];
      if event.inputs[k - 1].name != "" then m[event.inputs[k - 1].name := value] else m
  }

  /** decodeLog(event:eventLog:) */
  function DecodeLogSpec(mode: Mode, event: Event, log: EventLog): Option<map<string, Entry>>
    requires |log.topics| > 0 && InputsWellFormed(event.inputs)
  {
    if event.topic != log.topics[0] && !event.anonymous then None
    else
      var indexed := Indexed(event.inputs);
      if |log.topics| == 1 && |indexed| > 0 then None
      else if |log.topics| != |indexed| + 1 then None
      else
        match IndexedValues(mode, indexed, log.topics[1..])
        case None => None
        case Some(iv) =>
          match DecodeTypes(mode, Types(NonIndexed(event.inputs)), log.data)
          case None => None
          case Some(nv) => Some(Filled(event, InputValues(event.inputs, iv, nv), |event.inputs|))
  }

  /* ---------- decodeLog as the source runs it ---------- */

  lemma GlueNothing(rest: Option<seq<Value>>)
    ensures Glue([], rest) == rest
  {
    if rest.Some? {
      assert [] + rest.value == rest.value;
    }
  }

  /** One more indexed value decoded: it moves from the rest to the prefix. */
  lemma IndexedStep(mode: Mode, prefix: seq<Value>, indexed: seq<EventInput>, topics: seq<seq<byte>>, i: nat, v: Value, c: nat)
    requires |topics| == |indexed| && InputsWellFormed(indexed) && i < |indexed|
    requires DecodeSingle(mode, TopicType(indexed[i].paramType), topics[i], 0) == Some((v, c))
    ensures Glue(prefix, IndexedValues(mode, indexed[i..], topics[i..])) ==
            Glue(prefix + [v], IndexedValues(mode, indexed[i + 1..], topics[i + 1..]))
  {
    assert indexed[i..][1..] == indexed[i + 1..] && topics[i..][1..] == topics[i + 1..];
    var rest := IndexedValues(mode, indexed[i + 1..], topics[i + 1..]);
    if rest.Some? {
      assert prefix + ([v] + rest.value) == prefix + [v] + rest.value;
    }
  }

  /** An indexed value that fails fails them all. */
  lemma IndexedFail(mode: Mode, prefix: seq<Value>, indexed: seq<EventInput>, topics: seq<seq<byte>>, i: nat)
    requires |topics| == |indexed| && InputsWellFormed(indexed) && i < |indexed|
    requires DecodeSingle(mode, TopicType(indexed[i].paramType), topics[i], 0).None?
    ensures Glue(prefix, IndexedValues(mode, indexed[i..], topics[i..])) == None
  {
  }

  /** The loop of decodeLog over the indexed inputs, input i read from topic i + 1. */
  method DecodeIndexedInputs(indexedInputs: seq<EventInput>, logs: seq<seq<byte>>) returns (r: Option<seq<Value>>)
    requires |logs| == |indexedInputs| + 1 && InputsWellFormed(indexedInputs)
    ensures r == IndexedValues(AsWritten, indexedInputs, logs[1..])
  {
    var topics := logs[1..];
    var indexedValues: seq<Value> := [];
    GlueNothing(IndexedValues(AsWritten, indexedInputs, topics));
    for i := 0 to |indexedInputs|
      invariant IndexedValues(AsWritten, indexedInputs, topics) ==
                Glue(indexedValues, IndexedValues(AsWritten, indexedInputs[i..], topics[i..]))
    {
      var data := logs[i + 1];
      var input := indexedInputs[i];
      var step;
      if !IsStatic(input.paramType) || IsArray(input.paramType) || MemoryUsage(input.paramType) != 32 {
        step := Decoder.DecodeSingleType(Bytes(32), data, 0);
      } else {
        step := Decoder.DecodeSingleType(input.paramType, data, 0);
      }
      if step.None? {
        IndexedFail(AsWritten, indexedValues, indexedInputs, topics, i);
        return None;
      }
      IndexedStep(AsWritten, indexedValues, indexedInputs, topics, i, step.value.0, step.value.1);
      indexedValues := indexedValues + [step.value.0];
    }
    assert indexedInputs[|indexedInputs|..] == [] && topics[|indexedInputs|..] == [];
    assert indexedValues + [] == indexedValues;
    return Some(indexedValues);
  }

  /** Step i of the dictionary loop maps the input's position and non-empty name to its value. */
  lemma FillStep(event: Event, iv: seq<Value>, nv: seq<Value>, i: nat, value: Value)
    requires i < |event.inputs| && |iv| == |Indexed(event.inputs)| && |nv| == |NonIndexed(event.inputs)|
    requires value == ValueAt(event.inputs, i, iv, nv)
    ensures var vals := InputValues(event.inputs, iv, nv);
      var m := Filled(event, vals, i)[Decimal(i) := Param(value)];
      Filled(event, vals, i + 1) == if event.inputs[i].name != "" then m[event.inputs[i].name := Param(value)] else m
  {
  }

  /**
   * The loop of decodeLog that fills the dictionary: for input i, its
   * position and its non-empty name are mapped to the next indexed or the
   * next non-indexed value, as the input is indexed or not.
   */
  method FillEventContent(event: Event, indexedValues: seq<Value>, nonIndexedValues: seq<Value>)
    returns (eventContent: map<string, Entry>)
    requires |indexedValues| == |Indexed(event.inputs)| && |nonIndexedValues| == |NonIndexed(event.inputs)|
    ensures eventContent == Filled(event, InputValues(event.inputs, indexedValues, nonIndexedValues), |event.inputs|)
  {
    eventContent := map["name" := EventName(event.name)];
    var indexedInputCounter := 0;
    var nonIndexedInputCounter := 0;
    for i := 0 to |event.inputs|
      invariant eventContent == Filled(event, InputValues(event.inputs, indexedValues, nonIndexedValues), i)
      invariant indexedInputCounter == |Indexed(event.inputs[..i])|
      invariant nonIndexedInputCounter == |NonIndexed(event.inputs[..i])|
    {
      FilterStep(event.inputs, i);
      FilterPosition(event.inputs, i);
      var el := event.inputs[i];
      if el.indexed {
        var name := Decimal(i);
        var value := indexedValues[indexedInputCounter];
        FillStep(event, indexedValues, nonIndexedValues, i, value);
        eventContent := eventContent[name := Param(value)];
        if el.name != "" {
          eventContent := eventContent[el.name := Param(value)];
        }
        indexedInputCounter := indexedInputCounter + 1;
      } else {
        var name := Decimal(i);
        var value := nonIndexedValues[nonIndexedInputCounter];
        FillStep(event, indexedValues, nonIndexedValues, i, value);
        eventContent := eventContent[name := Param(value)];
        if el.name != "" {
          eventContent := eventContent[el.name := Param(value)];
        }
        nonIndexedInputCounter := nonIndexedInputCounter + 1;
      }
    }
  }

  /** decodeLog(event:eventLog:) */
  method DecodeLog(event: Event, eventLog: EventLog) returns (r: Option<map<string, Entry>>)
    requires |eventLog.topics| > 0 && InputsWellFormed(event.inputs)
    ensures r == DecodeLogSpec(AsWritten, event, eventLog)
  {
    if event.topic != eventLog.topics[0] && !event.anonymous {
      return None;
    }
    var logs := eventLog.topics;
    var dataForProcessing := eventLog.data;
    var indexedInputs := Indexed(event.inputs);
    if |logs| == 1 && |indexedInputs| > 0 {
      return None;
    }
    var nonIndexedInputs := NonIndexed(event.inputs);
    var nonIndexedTypes := Types(nonIndexedInputs);
    if |logs| != |indexedInputs| + 1 {
      return None;
    }
    var indexedValues := DecodeIndexedInputs(indexedInputs, logs);
    if indexedValues.None? {
      return None;
    }
    var v := Decoder.Decode(nonIndexedTypes, dataForProcessing);
    if v.None? {
      return None;
    }
    var eventContent := FillEventContent(event, indexedValues.value, v.value);
    return Some(eventContent);
  }
}
