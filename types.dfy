/** The node type names of lib/types, which is not part of this model: the
    transforms receive them as values. */
module Types {
  datatype TypeNames = TypeNames(brand: string, org: string, domain: string, email: string,
                                 ipv4: string, port: string)
}
