/** The operator's inputs: the parts of the ScionNetwork spec and of the API
    responses that the deny list, the node check and registration read. */
module Cluster {
  import opened Wrappers

  /** An API read: what it returned, that the API or object is absent (or access to
      an optional list is forbidden), or another error. */
  datatype Read<+T> = Got(value: T) | Absent | Failed

  datatype AddressKind = InternalIP | OtherAddress

  datatype Address = Address(kind: AddressKind, text: string)

  datatype Node = Node(name: string, labels: map<string, string>, podCIDRs: seq<string>, podCIDR: string,
                       addresses: seq<Address>)

  /** `spec.clusterNetwork[].cidr` (absent when the entry has no such string) and `spec.serviceNetwork`. */
  datatype NetworkConfig = NetworkConfig(clusterNetwork: seq<Option<string>>, serviceNetwork: seq<string>)

  datatype Pool = Pool(disabled: bool, cidr: string)

  datatype Spec = Spec(isdASes: seq<string>, forbiddenCIDRs: seq<string>, underlayCIDRs: seq<string>,
                       podCIDR: Option<bool>, nodeIP: Option<bool>, nodeSelector: map<string, string>)

  datatype Api = Api(network: Read<NetworkConfig>, nodes: Read<seq<Node>>, services: Read<seq<seq<string>>>,
                     pools: Read<seq<Pool>>, ciliumNodes: Read<seq<seq<string>>>)

  /** Label selection: every selector entry is among the labels. */
  predicate Selected(labels: map<string, string>, selector: map<string, string>) {
    forall k | k in selector :: k in labels && labels[k] == selector[k]
  }

  /** The first InternalIP, or "" if there is none. */
  function FirstInternalIP(addresses: seq<Address>): string {
    if addresses == [] then ""
    else if addresses[0].kind == InternalIP then addresses[0].text
    else FirstInternalIP(addresses[1..])
  }

  /** `ip` is the text of an InternalIP with no InternalIP before it in the list. */
  ghost predicate IsFirstInternalIP(addresses: seq<Address>, ip: string) {
    exists i :: 0 <= i < |addresses| && addresses[i] == Address(InternalIP, ip)
                && forall j | 0 <= j < i :: addresses[j].kind != InternalIP
  }

  lemma {:induction false} FirstInternalIPMeaning(addresses: seq<Address>, ip: string)
    requires ip != ""
    ensures FirstInternalIP(addresses) == ip <==> IsFirstInternalIP(addresses, ip)
  {
    if addresses != [] {
      var rest := addresses[1..];
      FirstInternalIPMeaning(rest, ip);
      if addresses[0].kind != InternalIP {
        if i :| 0 <= i < |rest| && rest[i] == Address(InternalIP, ip) && forall j | 0 <= j < i :: rest[j].kind != InternalIP {
          assert addresses[i + 1] == rest[i];
          assert forall j | 0 < j < i + 1 :: addresses[j] == rest[j - 1];
        }
        if i :| 0 <= i < |addresses| && addresses[i] == Address(InternalIP, ip) && forall j | 0 <= j < i :: addresses[j].kind != InternalIP {
          assert rest[i - 1] == addresses[i];
          assert forall j | 0 <= j < i - 1 :: rest[j] == addresses[j + 1];
        }
      }
    }
  }
}
