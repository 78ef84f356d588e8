/** The cache of flows that the node controller believes are installed (pkg/flowconfig/flowsets). */
module FlowSets {

  import opened FlowTypes

  /** The hexadecimal SHA-256 digest of a marshalled request. Taken as a free constructor, so the
      hash is injective and nothing else is known about it. */
  datatype FlowKey = Sha256(preimage: RequestFlowCreate)

  datatype FlowCreateRecord = FlowCreateRecord(flowId: uint32, rule: RequestFlowCreate)

  type Cache = map<FlowKey, FlowCreateRecord>

  /** The records whose key is not listed in keys. */
  function Compliments(data: Cache, keys: seq<FlowKey>): Cache {
    map k | k in data && k !in keys :: data[k]
  }

  class FlowSets {
    var data: Cache

    constructor ()
      ensures data == map[]
    {
      data := map[];
    }

    /** Add never overwrites: the record that came first stays. */
    method Add(key: FlowKey, id: uint32, rule: RequestFlowCreate)
      modifies this
      ensures key in old(data) ==> data == old(data)
      ensures key !in old(data) ==> data == old(data)[key := FlowCreateRecord(id, rule)]
    {
      if key !in data {
        data := data[key := FlowCreateRecord(id, rule)];
      }
    }

    method Delete(key: FlowKey)
      modifies this
      ensures data == old(data) - {key}
    {
      data := data - {key};
    }

    predicate Has(key: FlowKey)
      reads this
    {
      key in data
    }

    method GetCompliments(keys: seq<FlowKey>) returns (flowRecs: Cache)
      ensures flowRecs == Compliments(data, keys)
    {
      flowRecs := map[];
      var pending := data.Keys;
      while pending != {}
        invariant pending <= data.Keys
        invariant flowRecs == map k | k in data && k !in pending && k !in keys :: data[k]
      {
        var setKey :| setKey in pending;
        var found := false;
        for i := 0 to |keys|
          invariant found <==> setKey in keys[..i]
        {
          if setKey == keys[i] {
            found := true;
            break;
          }
        }
        if !found {
          flowRecs := flowRecs[setKey := data[setKey]];
        }
        pending := pending - {setKey};
      }
    }
  }
}
