/** Octets and the string type of libmqtt/MQTTPacket.h. */
module MqttStrings {
  import opened Options

  type octet = x: int | 0 <= x < 0x100

  /** A C string, given without its terminating NUL. */
  type CString = s: seq<octet> | 0 !in s

  /**
   The two forms of a string: a C string, which may be absent, and a counted string, whose data pointer may be
   NULL. A string may carry both forms.
   */
  datatype MqttString = MqttString(cstring: Option<CString>, data: Option<seq<octet>>) {

    function Counted(): seq<octet> {
      if data.Some? then data.value else []
    }

    /** The test of MQTTSerialize_connect for a string that is there, possibly empty. */
    predicate Present() {
      cstring.Some? || data.Some?
    }
  }

  /** MQTTstrlen. */
  function StringLength(s: MqttString): nat {
    if s.cstring.Some? then |s.cstring.value| else |s.Counted()|
  }

  /** The characters that writeMQTTString writes. */
  function Written(s: MqttString): seq<octet> {
    if |s.Counted()| > 0 then s.Counted()
    else if s.cstring.Some? then s.cstring.value
    else []
  }

  /** How much longer a string is written than it is counted. */
  function Excess(s: MqttString): int {
    |Written(s)| - StringLength(s)
  }

  /** Only one form is set. */
  predicate OneForm(s: MqttString) {
    s.cstring.None? || s.data.None?
  }

  /** The length function prefers the C string and the write function the counted one. */
  lemma LengthsAgree(s: MqttString)
    ensures Excess(s) == 0 <==>
            s.cstring.None? || s.Counted() == [] || |s.cstring.value| == |s.Counted()|
    ensures OneForm(s) ==> Excess(s) == 0
  {
  }

  const EMPTY: CString := []

  /** A string whose two forms differ: it is counted as empty and written as "a". */
  const TWO_FORMS := MqttString(Some(EMPTY), Some([0x61]))
}
