/** The rows of the two business directories, after the columns that matching
    does not use (`size` on the left, `categories` on the right) are dropped. */
module Records {

  datatype LeftRow = LeftRow(
    businessId: string,
    name: string,
    address: string,
    city: string,
    state: string,
    zipCode: string)

  datatype RightRow = RightRow(
    entityId: string,
    name: string,
    address: string,
    city: string,
    state: string,
    postalCode: string)
}
