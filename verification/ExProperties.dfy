/** src/stomp_ex_properties.c: the properties that travel with every message of an exchange. */
module ExProperties {
  import opened CValues
  import opened Frames

  /** `stomp_exchange_properties_t`. */
  class ExchangeProperties {
    var hash: Table

    constructor ()
      ensures hash == map[]
    {
      hash := map[];
    }

    /** `stomp_exchange_add`. */
    method Add(name: string, value: Option<string>)
      modifies this
      ensures hash == Put(old(hash), name, value)
    {
      if value == None {
        hash := hash - {name};
      } else {
        hash := hash[name := value.value];
      }
    }

    /** `stomp_exchange_get`. */
    function Get(name: string): (value: Option<string>)
      reads this
      ensures value.None? <==> name !in hash
      ensures value.Some? ==> hash[name] == value.value
    {
      Lookup(hash, name)
    }

    /** `stomp_exchange_clear`. */
    method Clear()
      modifies this
      ensures hash == map[]
    {
      hash := map[];
    }
  }
}
