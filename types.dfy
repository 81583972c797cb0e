/** The record types of main.go: one observed instance (RawData), one report row
    (Data) and one role's group of rows (CSVdata). */
module Types {

  /** One running instance: its type and its Role and Environment tag values. */
  datatype RawData = RawData(instanceType: string, role: string, environment: string)

  /** One report row: an environment, an instance type and how many instances it stands for. */
  datatype Data = Data(environment: string, instanceType: string, instanceCount: int)

  /** All report rows of one role. */
  datatype CSVdata = CSVdata(role: string, data: seq<Data>)
}
