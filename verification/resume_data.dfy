/** The experience and project records the player builds its tracks from,
    transcribed as constants so that their shape (every record has highlights,
    every palette is a list of hex colours) can be checked. */
module ResumeData {
  import opened Wrappers

  datatype Experience = Experience(
    company: string,
    role: string,
    period: string,
    location: string,
    highlights: seq<string>,
    technologies: seq<string>,
    palette: Option<seq<string>>)

  datatype Project = Project(
    title: string,
    description: string,
    highlights: seq<string>,
    technologies: seq<string>,
    link: Option<string>,
    github: Option<string>,
    image: Option<string>,
    palette: Option<seq<string>>)

  const Experiences: seq<Experience> := [SoftwareEngineer, SoftwareEngineerIntern]

  const Projects: seq<Project> := [BrainReport]

  const SoftwareEngineer: Experience := Experience(
    "Cognizant, TriZetto QNXT Modernization Team (Healthcare Tech)",
    "Software Engineer",
    "Aug 2024 - Present",
    "Mesa, AZ",
    SoftwareEngineerHighlights,
    [".NET 8", "Blazor", "Syncfusion", "C#", "JavaScript", "SignalR", "xUnit", "WCAG 2.1 AA", "ARIA", "WAVE", "NVDA"],
    Some(SoftwareEngineerPalette))

  const SoftwareEngineerHighlights: seq<string> := [
    "Tuned Blazor lifecycles to speed up initial page loads",
    "Built a JS interop pipeline to bypass SignalR bottlenecks",
    "Making uploads and rendering significantly faster",
    "Reworked semantic HTML and ARIA across the app",
    "Configured Syncfusion components for full screen reader support",
    "Built a reusable grid system that standardized UI development",
    "Shipped 10+ features for the HSC 2025 conference demo",
    "Maintained strong test coverage with xUnit",
    "Validated accessibility end-to-end with WAVE and NVDA"]

  const SoftwareEngineerPalette: seq<string> := ["#0A2463", "#1E6091", "#3E92CC", "#D4AF37"]

  const SoftwareEngineerIntern: Experience := Experience(
    "Cognizant, TriZetto QNXT Modernization Team",
    "Software Engineer Intern",
    "Jun 2023 - Aug 2023",
    "Mesa, AZ",
    SoftwareEngineerInternHighlights,
    [".NET", "Blazor", "Syncfusion", "C#"],
    Some(SoftwareEngineerInternPalette))

  const SoftwareEngineerInternHighlights: seq<string> := [
    "Built a Blazor + Syncfusion proof-of-concept",
    "Replicated core QNXT UI workflows end-to-end",
    "Packaged it into a stakeholder demo with documented tradeoffs",
    "Helped move the project from exploration to funded"]

  const SoftwareEngineerInternPalette: seq<string> := ["#2D1B69", "#573B8A", "#8B5FBF", "#D4A5FF"]

  const BrainReport: Project := Project(
    "IQity Brain Performance Report",
    "Multi-section cognitive performance report UI for medical data visualization",
    BrainReportHighlights,
    ["React 18", "TypeScript", "Vite", "Tailwind", "Radix UI", "Recharts", "Zod", "Vitest"],
    Some("https://iquity-report-project.vercel.app/"),
    None,
    Some("/images/iqity-project.png"),
    Some(BrainReportPalette))

  const BrainReportHighlights: seq<string> := [
    "Built a multi-section cognitive performance report",
    "Visualized structured medical data with Recharts",
    "Deployed to Vercel for live stakeholder review",
    "Enforced a runtime JSON contract with Zod",
    "Blocked invalid payloads before they hit the UI",
    "Surfaced actionable schema errors instead of silent failures",
    "Wired up config-driven dual data sources",
    "Local fixtures for demos, HTTP API for production",
    "Kept the UI fully decoupled from the backend"]

  const BrainReportPalette: seq<string> := ["#0B3D2E", "#1A7A5C", "#2EC4B6", "#CBF3F0"]
}
