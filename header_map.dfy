/** The response-header dictionary (`HashMap<String, String>`) that the CORS
    and content-type helpers fill in place. Its iteration order is unspecified,
    so it is modelled as an unordered map. */
module HeaderMaps {

  class HeaderMap {
    var entries: map<string, string>

    constructor ()
      ensures entries == map[]
    {
      entries := map[];
    }

    /** `HashMap::insert`: the key now maps to the value, replacing any
        previous one; every other entry is unchanged. */
    method Insert(key: string, value: string)
      modifies this
      ensures entries == old(entries)[key := value]
    {
      entries := entries[key := value];
    }
  }
}
