/** The data the transformer reads and produces, and the ways a run can fail. */
module Schema {

  /** A cell as pandas holds it: missing (NaN), or present with the text `str()` gives for it. */
  datatype Cell = Missing | Present(text: string)

  /** A row of the input table, indexed by column name (`row[col]`). */
  type Row = map<string, Cell>

  /** The table `pd.read_csv` produces: the header in file order, and the rows. */
  datatype Table = Table(columns: seq<string>, rows: seq<Row>)

  /** Every row has a cell for every column of the header. */
  predicate WellFormed(t: Table) {
    forall i, c :: 0 <= i < |t.rows| && c in t.columns ==> c in t.rows[i]
  }

  /**
   * One row of the long table, with the output columns
   * `Data, Ano, Mes, Mes_Nome, Tipo, Grupo, Categoria, Valor`.
   */
  datatype Record = Record(
    data: string,
    ano: int,
    mes: nat,
    mesNome: string,
    tipo: Cell,
    grupo: Cell,
    categoria: string,
    valor: real)

  /** The exceptions that end a run, in the order the source can raise them. */
  datatype TransformError =
    | MissingColumns(names: seq<string>)  // ValueError from the input check
    | NoDateColumns                       // ValueError from the input check
    | HeaderShape                         // ValueError unpacking `split('/')`
    | YearNotInteger                      // ValueError from `int(year_str)`
    | UnknownMonth                        // TypeError formatting a `None` month with `02d`
    | CategoryNotText                     // AttributeError calling `strip()` on a NaN category
    | NoRecords                           // KeyError sorting a frame that has no `Data` column
}
