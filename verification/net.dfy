/** Socket addresses as Python reports them: `(host, port)`. */
module Net {
  datatype Address = Address(host: string, port: int)
}
